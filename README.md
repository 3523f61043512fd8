# Flood-It: the board and the game session, modelled in Dafny

Flood-It is a puzzle on a rectangular grid of coloured cells. A move picks a
colour and repaints the *region* of the origin (0, 0): every cell 4-connected
to the origin through cells of the origin's colour. The goal is to make the
whole grid one colour.

This project models the two classes of the puzzle engine. Both classes work
by mutation, so both are Dafny classes whose methods change their fields.

- `Flood` (flood.py) becomes the class `FloodBoard.Flood`.
  - `tablero` is a `seq<seq<int>>` field that the methods reassign cell by cell.
  - `coloresUsados` is a `set<int>` field.
  - Each method has the loop or recursion of the original:
    - the depth-first fill `_cambiar_color` (`RellenarDesde`),
    - the region count `area_actual` with its visited set,
    - the nested scan `esta_completado`,
    - the row-by-row `clonar`,
    - the greedy loop of `seleccionar_color_optimo`.
- `JuegoFlood` (juegoflood.py) becomes the class `FloodGame.JuegoFlood`.
  - The fields are the live board, the move counter and the best count.
  - The solution queue (`Cola`, front at index 0) is a sequence field.
  - The undo and redo stacks (`Pila`, top at the end) are sequences of (board snapshot, colour) entries.
  - `_calcular_movimientos` is the method `FloodGame.CalcularMovimientos`, with its `while` loop on a clone.

Each method is proved against a specification:

- **Board operations.** Their specifications are ghost functions in module `Grids`:
  - `Fill` and `Recolor`: the fill and the move;
  - `Region`: the origin's region, defined in module `Regions` as a 4-connected component;
  - `Complete`, `AreaAfter` and `ApplyMoves`.
- **Game operations.** Their specification is the value `Session` with the functions `Move`, `Undo` and `Redo`. Each method's `ensures` says that the fields change as the function says.

The laws are then proved about those functions:

- repeating a move is a no-op;
- a move repaints exactly the region;
- the greedy move strictly grows the region, so the solver loop terminates in fewer moves than the board has cells;
- undo after a move restores the board, the counter and the undo stack;
- redo cancels undo, and undo cancels redo;
- the game invariant holds in every reachable state. It says:
  - the counter equals the undo stack's height;
  - every stored board is well formed and seeded;
  - each stored colour is the origin colour of the board that followed it;
  - the undo stack replays: each stored board, repainted with its stored colour, gives the next stored board, and the last gives the live board;
  - the redo stack replays from the live board: repainting with the top entry's colour gives the top board, and so on down the stack;
- a move that matches the queue front leaves a solution of the new board in the queue.

The DFS recursions are the flood fill and the region count. Each removes cells from an eligible set and recurses on the four neighbours. `Regions.SweptIsComponent` and `Regions.SweepCompose` prove, once, that one such step removes exactly the start cell's component. The proofs of both recursions use them.

## Model

| member | source | states |
|---|---|---|
| FloodBoard.Flood.constructor | flood.py:9-20 | The board has the given size, every cell is 0, and no colour is used yet. |
| FloodBoard.Flood.MezclarTablero | flood.py:22-36 | Seeding writes every cell of the injected draw grid in row-major order. Afterwards the board equals the draws, and the used colours gain exactly the colours drawn. |
| FloodBoard.ColoursOf | flood.py:32-36 | The colours recorded by seeding include every cell's colour. |
| FloodGame.ColoursInRange | flood.py:34-36 | If every draw lies in 1..n_colores, so does every recorded colour. |
| FloodBoard.SeedingIsSeeded | flood.py:32-36 | A freshly seeded board is seeded: every cell outside the origin's region holds a used colour. |
| FloodBoard.PyIndex | flood.py:50 | Python list indexing: an index is accepted exactly when it lies in -n..n-1, and negative indices count from the end. |
| FloodBoard.Flood.ObtenerColor | flood.py:39-50 | Reading a cell succeeds exactly when both indices are valid Python indices, and otherwise gives IndexError. In-range indices give that cell's colour. |
| FloodBoard.SortedColours | flood.py:64 | The result is strictly ascending and has exactly the members of the set, one each. |
| FloodBoard.Flood.ObtenerPosiblesColores | flood.py:53-64 | The used colours, strictly ascending, each exactly once. |
| FloodBoard.Flood.Dimensiones | flood.py:66-73 | Returns (rows, columns) of the rectangular board, both positive. |
| FloodBoard.Flood.CambiarColor | flood.py:76-91 | The board becomes the move's result `Recolor`. The used colours are unchanged, and the dimensions are constants. |
| FloodBoard.Flood.RellenarDesde | flood.py:94-107 | Filling from (fil, col) gives `Fill`: it repaints exactly the component of (fil, col) among the cells of the old colour. |
| Grids.FillIneligible | flood.py:96-100 | A fill from a cell out of bounds or of another colour leaves the board unchanged. |
| Grids.FillAt | flood.py:94-107 | A fill repaints each cell of the start's component and keeps every other cell's colour. |
| Grids.FillStep | flood.py:102-107 | Painting a cell and then filling from its down, up, right and left neighbours in turn gives the fill from the cell. |
| Regions.SweepCompose | flood.py:104-107 | Removing p and then sweeping from its four neighbours in turn removes exactly p's component. |
| Regions.SweptIsComponent | flood.py:94-107 | The facts a sweep establishes characterise its result exactly, in both directions. |
| Grids.CountPaint | flood.py:99-102 | Painting a cell of the old colour lowers the number of old-colour cells by one (the fill's termination measure). |
| Grids.CountFill | flood.py:104-107 | A fill never increases the number of old-colour cells. |
| Grids.Recolor | flood.py:76-107 | A move keeps the board's shape. |
| Grids.RecolorAt | flood.py:94-107 | After a move, every cell of the origin's region holds the new colour and every other cell keeps its colour. |
| Grids.RecolorSameColour | flood.py:86-89 | A move with the origin's own colour leaves the board unchanged. |
| Grids.RecolorOrigin | flood.py:86-107 | After a move the origin holds the chosen colour. |
| Grids.RecolorIdempotent | flood.py:76-107 | Repeating a move is a no-op. |
| Grids.RegionGrows | flood.py:94-107 | A move never shrinks the origin's region. |
| Grids.RegionAbsorbs | flood.py:94-107 | A move of colour c absorbs every c-coloured cell next to the region. |
| Grids.SeededRecolor | flood.py:32-36 | A move keeps a seeded board seeded. |
| FloodBoard.Flood.Clonar | flood.py:110-123 | The copy is a fresh object with the same dimensions, used colours and cells. |
| FloodBoard.Flood.FromBoard | juegoflood.py:62 | The live board rebuilt from a stored copy equals that copy. |
| FloodBoard.Flood.EstaCompletado | flood.py:125-140 | The result is true exactly when every cell equals the origin's colour. |
| Grids.CompleteIffRegionIsBoard | flood.py:125-140 | The board is complete exactly when the origin's region is the whole board. |
| Grids.FrontierExists | flood.py:125-140 | An incomplete board has a cell outside the region that is adjacent to it. |
| FloodBoard.Flood.AreaActual | flood.py:165-182 | The count is the size of the component of (fil, col) among the unvisited cells of the origin's colour. The visited set grows by exactly that component. |
| FloodBoard.Flood.AreaFromOrigin | flood.py:165-182 | Counting from the origin with nothing visited gives the size of the origin's region, which lies between 1 and rows×columns. |
| Grids.RegionBounds | flood.py:165-182 | The origin's region has between 1 and rows×columns cells. |
| FloodBoard.Flood.AreaConColor | flood.py:155-157 | One trial repaints a clone with the colour and measures the clone's region. The area equals `AreaAfter` and is positive. |
| FloodBoard.Flood.SeleccionarColorOptimo | flood.py:143-163 | Returns None exactly when no colour is used. Otherwise it returns a used colour whose area is maximal and strictly larger than that of every smaller colour (ties go to the smallest). The board is not modified. |
| FloodBoard.FirstMaxSnoc | flood.py:159-161 | With the strict comparison, a larger area takes the lead and anything else keeps the earlier leader. |
| FloodBoard.GreedyBest | flood.py:154-163 | The colour the loop keeps is the greedy choice over all used colours. |
| Grids.SomeColourGrows | flood.py:143-163 | On an incomplete seeded board some used colour strictly grows the region. |
| FloodGame.GreedyStepGrows | juegoflood.py:95-97 | On an incomplete seeded board the greedy move strictly grows the region and keeps the board seeded. |
| FloodGame.GreedyRunGrows | juegoflood.py:95-99 | After a greedy run the region has grown by at least one cell per move. |
| FloodGame.GreedyRunBound | juegoflood.py:95-100 | A greedy run has fewer moves than the board has cells. |
| FloodGame.GreedyRunAt | juegoflood.py:95-98 | Every move of a greedy run is the greedy choice on an incomplete board. |
| FloodGame.CalcularMovimientos | juegoflood.py:78-100 | Returns the greedy run from the current board, which leaves it complete. The count equals the number of steps and is below rows×columns. The game's board is not modified. |
| FloodGame.RunEmptyIffComplete | juegoflood.py:95 | A solving run is empty exactly when the board is already complete. |
| FloodGame.RunAfterFront | juegoflood.py:44-45 | After the first move of a solving run, the rest of the run is a solving run of the new board. |
| FloodGame.RunTail | juegoflood.py:95-98 | The rest of a run is a run from the board after its first move. |
| FloodGame.ApplyMovesCons | juegoflood.py:95-98 | Applying a first move and then the rest is applying them all. |
| FloodGame.JuegoFlood.constructor | juegoflood.py:11-27 | The board is seeded from the draws, and the best count is the length of a greedy run that solves it, below rows×columns. The counter is 0, the queue and both stacks are empty, and the used colours lie in 1..n_colores. |
| FloodGame.InitialSession | juegoflood.py:20-27 | The fresh game satisfies the game invariant. |
| FloodGame.JuegoFlood.CambiarColor | juegoflood.py:29-50 | The state changes as `Move` says and the invariant is kept. The best count is unchanged, because the recomputed solution is discarded. |
| FloodGame.MoveKeepsAgreement | juegoflood.py:39-50 | A move keeps the stack part of the invariant: the counter equals the undo stack's height, every stored board is well formed and seeded, and each stored colour is the origin colour of the board that followed it. |
| FloodGame.MovesChainPush | juegoflood.py:39-41 | Pushing the current board with the colour played on it keeps the undo stack replaying to the new board. |
| FloodGame.MovePreserves | juegoflood.py:39-50 | A move keeps the whole invariant, including the replay of both stacks (the redo stack is emptied). |
| FloodGame.MoveFollowsSolution | juegoflood.py:44-47 | A move equal to the queue front leaves the rest of the queue as a greedy solution of the new board. Any other move empties the queue. |
| FloodGame.JuegoFlood.Deshacer | juegoflood.py:52-63 | The state changes as `Undo` says: a no-op on an empty history, otherwise the previous board returns and the current one is pushed for redo. |
| FloodGame.UndoKeepsAgreement | juegoflood.py:52-63 | Undo keeps the stack part of the invariant. |
| FloodGame.MovesChainPop | juegoflood.py:60-62 | Popping the undo stack leaves it replaying to the popped board. |
| FloodGame.RedoChainPush | juegoflood.py:61-62 | Pushing the live board for redo, when the board that replaces it repaints to it with the pushed colour, keeps the redo stack replaying from the new live board. |
| FloodGame.UndoPreserves | juegoflood.py:52-63 | Undo keeps the whole invariant, including the replay of both stacks. |
| FloodGame.UndoAfterMove | juegoflood.py:39-41 | Undo after a move restores the board cell for cell, the counter and the undo stack, and leaves exactly that move on the redo stack. |
| FloodGame.JuegoFlood.Rehacer | juegoflood.py:65-76 | The state changes as `Redo` says: a no-op on an empty redo stack, otherwise the undone board returns. |
| FloodGame.RedoKeepsAgreement | juegoflood.py:65-76 | Redo keeps the stack part of the invariant. |
| FloodGame.RedoChainPop | juegoflood.py:73-75 | Popping the redo stack leaves it replaying from the popped board. |
| FloodGame.RedoPreserves | juegoflood.py:65-76 | Redo keeps the whole invariant, including the replay of both stacks. |
| FloodGame.RedoAfterUndo | juegoflood.py:58-63 | Redo after an undo restores the whole state. The colour stored for redo is the one the undone move played. |
| FloodGame.UndoAfterRedo | juegoflood.py:71-76 | Undo after a redo restores the whole state. |
| FloodGame.JuegoFlood.HayProximoPaso | juegoflood.py:103-107 | True exactly when `proximo_paso` would succeed. |
| FloodGame.JuegoFlood.ProximoPaso | juegoflood.py:110-118 | The front of the queue, without removing it, or EmptySolution exactly when the queue is empty. |
| FloodGame.JuegoFlood.CalcularNuevaSolucion | juegoflood.py:121-126 | Only the queue changes, and it becomes a greedy run that solves the current board. A step is then queued exactly when the board is not complete. |
| FloodGame.JuegoFlood.Dimensiones | juegoflood.py:129-130 | The dimensions of the live board. |
| FloodGame.JuegoFlood.ObtenerColor | juegoflood.py:133-134 | Reading the live board succeeds exactly when both indices are valid Python indices, and gives the colour of the cell they name (negative indices count from the end). |
| FloodGame.JuegoFlood.ObtenerPosiblesColores | juegoflood.py:137-138 | The used colours of the live board, ascending. |
| FloodGame.JuegoFlood.EstaCompletado | juegoflood.py:141-142 | Whether the live board is complete. |

## Left out

- The random draws of `mezclar_tablero` (`random.randint`) are not modelled. The draws are a grid `semilla` passed to `MezclarTablero` and to the `JuegoFlood` constructor. The constructor requires each draw to lie in 1..n_colores.
- The modules `pila` and `cola` are not part of this model. Stacks and the queue are Dafny sequences.
- `historial_deshacer` is created by the constructor and never used again, so it is not a field of the model.
- Boards with no rows or no columns are excluded (`alto > 0` and `ancho > 0`). On them the original fails on its first read of (0, 0).
- Python's recursion limit on large regions is not modelled, and neither is any user interface.
- Board snapshots: a clone is stored in the history as a value (`Board`). Undo and redo rebuild a fresh `Flood` from it (`Flood.FromBoard`). This models putting the stored clone back, since nothing else references that clone. Object identity of the restored board is not modelled.
- The visited dictionary of `area_actual`, which the recursive calls share, is threaded through `AreaActual` as a set that goes in and comes back.
- `FloodGame.CalcularMovimientos` takes the game's board as a parameter instead of reading `self.flood`. Its second return value is a plain sequence instead of a `Cola`.
- Solver termination and `GoodBoard`:
  - `CalcularMovimientos` requires a board with at least one used colour whose cells outside the origin's region all hold used colours (`GoodBoard`).
  - Every call site of the original meets this. The game seeds its board before it first runs the solver, and the game invariant proves that every board it holds afterwards is good.
  - Without a used colour the original's loop would not terminate on an incomplete board. `seleccionar_color_optimo` returns `None` (flood.py:152, 163). The first `cambiar_color(None)` paints the region `None`, and every later one returns at once (flood.py:88-89). The board never becomes complete (juegoflood.py:94-98).
  - The only colourless board the code builds is the fresh all-zero one, which is complete, so the solver is never called on it.
- Behaviour of the code worth noting:
  - `cambiar_color` does not add the new colour to `colores_usados`.
  - `JuegoFlood.cambiar_color` discards the solver's result, so the best count is set only by the constructor.
  - `obtener_color` accepts negative Python indices instead of rejecting them.
  - A fresh board holds 0 in every cell with no colour used. After a move the region may hold a colour outside `colores_usados`, so the model's invariant (`Seeded`) speaks only of the cells outside the origin's region.
