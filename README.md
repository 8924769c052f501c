# City floor generator and message server: a Dafny model

This project models the sequential core of a Unity scene with two parts. The
scene renders a grid city and drives a walker from messages received over
TCP.

**The floor generator** (`FloorGenerator`, `Assets/GenerateSideWalk.cs`).
It holds an integer floor matrix.
- It lays one tile kind per cell code and collects the walkable (code 1) cells.
- It groups the building-footprint cells (code -10) into 4-connected regions. It does this with a row-major scan over a `visited` array, running a queue-based breadth-first flood fill from each unvisited footprint cell.
- It reduces each region to a bounding box and a placement measured in cells.
- It lists the walkable neighbours of a cell.
- It creates the walker on the first request and only moves it afterwards.

**The message server** (`TCPIPServerAsync`, `Assets/TCPSocket.cs`).
- It appends each received chunk of text to a buffer.
- It cuts every complete `'\n'`-terminated line off the front of the buffer, trims it, and hands it to the JSON handler.
- The handler enqueues deferred actions: a grid replacement when the record has a matrix, then a walker move when its agent position has exactly two entries.
- The main thread's `Update` drains that queue in order.

Modules, following the two source files:

- `Cells`, `Tiles`, `Bounds`, `Scan`, `Regions`, `FloodFill` define the vocabulary and specification of the floor generator: cells and adjacency, tile kinds, bounding boxes and placements, row-major cell lists, what a component labelling is, and the breadth-first-search invariant.
- `FloorGen` holds the class `FloorGenerator`. Its fields are `floorMatrix: array2<int>`, `walkableTiles: seq<Cell>` and `walkerPresent: bool`. Its methods follow the C# methods, with the same loops over the same arrays; `visited` is an `array2<bool>`.
- `Framing` specifies newline framing as a function `Frame` on strings: the complete lines and the rest. It also defines `Trim` over .NET's white-space set, and `Concat` and `FirstEmpty` over a stream of reads.
- `Dispatch` holds the decoded record and the actions it yields: `ActionsFor` for one message and `ActionsForAll` for many.
- `TcpServer` holds the class `Server`. Its fields are the receive buffer (`string`), the action queue (`seq<Action>`), `keepReading` and the abstract decoder. Its methods are the framing loop, the per-client read loop, `ProcessJSONMessage` and `Update`.

Conventions:
- Cell codes are the source's integers, with `FOOTPRINT = -10` and `WALKABLE = 1`.
- A `Cell(x, y)` stands for Unity's `Vector2Int`. `x` indexes the first dimension of the matrix, `y` the second (the source's `z`).
- The building centre is carried doubled (`minX + maxX + 1`), so it stays an integer.
- Grid sizes are bounded by C#'s `int` (`INT_MAX`), and PlaceBuilding starts its box from `int.MaxValue`/`int.MinValue` as the source does. The model's integers are otherwise unbounded; `Bounds.PlacementFitsInt32` gives the grid size below which the source's `int` sums of the placement do not wrap.

## Model

| member | source | states |
|---|---|---|
| FloorGen.FloorGenerator.constructor | Assets/GenerateSideWalk.cs:19-32 | The generator starts with the one-row matrix {1, 2}, no walkable tiles and no walker. |
| FloorGen.FloorGenerator.Start | Assets/GenerateSideWalk.cs:34-38 | The code-1 cells are appended to the walkable tiles. The buildings' regions are the unique component labelling of the matrix's footprint cells, in increasing row-major order of their seeds, each seed being its region's least cell. Each building has its region's tight box and the placement planned from it. |
| FloorGen.FloorGenerator.BuildCityFromMatrix | Assets/GenerateSideWalk.cs:41-60 | The matrix is replaced wholesale and the walker survives. The walkable tiles grow by the new matrix's code-1 cells, and are not cleared. The regions are the component labelling of the new matrix, in row-major order of their least cells. Each building has its region's tight box and the placement planned from it. |
| FloorGen.FloorGenerator.PlaceBuildings | Assets/GenerateSideWalk.cs:63-89 | The counted regions are connected, duplicate-free and maximal sets of footprint cells. They are pairwise disjoint and together cover exactly the footprint cells. They come in increasing row-major order of their seeds, each seed is the least cell of its region, and the count equals the number of regions. |
| FloorGen.FloorGenerator.ScanRow | Assets/GenerateSideWalk.cs:71-86 | Scanning a row keeps the scan invariant (the regions so far, disjoint, seeds in order, and visited marking exactly their cells). Afterwards every footprint cell up to the end of the row is covered. |
| FloorGen.FloorGenerator.ClaimRegion | Assets/GenerateSideWalk.cs:73-83 | An unvisited footprint cell met by the scan yields a new region, seeded at that cell, plus its building. The scan invariant survives and visited marks exactly the covered cells. |
| FloorGen.FloorGenerator.FloodRegion | Assets/GenerateSideWalk.cs:73-76 | The flood from the scan's cell returns a non-empty in-bounds region that starts at the seed and extends the scan state. |
| FloorGen.FloorGenerator.GetConnectedTiles | Assets/GenerateSideWalk.cs:93-134 | Every returned cell is in bounds and was unvisited. Every cell after the seed has code -10. The cells are distinct and 4-connected in discovery order, and an already visited seed gives the empty list. Visited afterwards is the old visited plus exactly the returned cells. Every footprint neighbour of a returned cell is returned or was already visited. |
| FloorGen.FloorGenerator.VisitTile | Assets/GenerateSideWalk.cs:101-130 | Dequeuing an unvisited cell marks it, appends it, enqueues its open neighbours and keeps the search invariant. |
| FloorGen.FloorGenerator.EnqueueOpenNeighbors | Assets/GenerateSideWalk.cs:115-130 | The queue keeps its old contents in front. Only adjacent footprint cells are appended, and every adjacent unvisited footprint cell is among them. |
| FloorGen.FloorGenerator.PlaceBuilding | Assets/GenerateSideWalk.cs:136-152 | The computed box is tight: it encloses every tile and each bound is attained. The placement has width and depth of at least one cell and a centre halfway between the edges. |
| FloorGen.FloorGenerator.GenerateFloor | Assets/GenerateSideWalk.cs:190-210 | The walkable tiles become the old list followed by exactly the code-1 cells, in row-major order. |
| FloorGen.FloorGenerator.GetValidNeighbors | Assets/GenerateSideWalk.cs:286-308 | The result holds at most four cells, in the order up, down, left, right. A cell is in it exactly when it is 4-adjacent to the input, in bounds and of code 1. |
| FloorGen.FloorGenerator.SpawnWalker | Assets/GenerateSideWalk.cs:226-242 | Without a walker the call spawns one at the position; with one it only moves it there. Afterwards the walker exists. |
| FloorGen.FloorGenerator.SpawnWalkerAll | Assets/GenerateSideWalk.cs:226-242 | A run of SpawnWalker calls issues exactly WalkerCommands of the positions, and the walker exists afterwards if it did before or any call was made. |
| FloorGen.OnlyFirstCallSpawns | Assets/GenerateSideWalk.cs:226-242 | Over successive calls from a state without a walker, the first spawns and every later call only moves. |
| FloorGen.PresentWalkerOnlyMoves | Assets/GenerateSideWalk.cs:235-241 | Once the walker exists, every call issues a move to its position. |
| FloorGen.Candidates | Assets/GenerateSideWalk.cs:289-298 | The four candidate cells are exactly the 4-adjacent cells. |
| FloorGen.WalkableAmongExact | Assets/GenerateSideWalk.cs:296-305 | The kept neighbours are exactly the candidates that are in bounds and of code 1, and there are no more of them than candidates. |
| Cells.Neighbors | Assets/GenerateSideWalk.cs:115-120 | The flood fill's four neighbours are exactly the 4-adjacent cells (no diagonals). |
| Cells.FootprintOfExact | Assets/GenerateSideWalk.cs:124-126 | A cell is a footprint cell exactly when it is in bounds and has code -10. |
| Tiles.PrefabForValue | Assets/GenerateSideWalk.cs:213-224 | A tile exists exactly for codes 1, 2, 4, 5 and -1. Footprint (-10) and obstacle (3) cells get none. |
| Tiles.CodeOf | Assets/GenerateSideWalk.cs:213-224 | Each tile kind is produced for exactly one code, which inverts the switch on its domain. |
| Bounds.PlanPlacement | Assets/GenerateSideWalk.cs:149-152 | Width and depth are at least one cell. The doubled centre lies half a width from either edge of the interval from min to max + 1. |
| Bounds.TightUnique | Assets/GenerateSideWalk.cs:139-147 | A list of tiles has at most one tight box. |
| Bounds.PlacementFitsInt32 | Assets/GenerateSideWalk.cs:150-152 | On grids of at most 2^30 rows and columns, the doubled centre, width and depth of a tight box all fit C#'s int, so the source's int sums do not wrap. |
| Bounds.TightBoxInGrid | Assets/GenerateSideWalk.cs:139-151 | The tight box of in-bounds tiles lies inside the grid. |
| Bounds.GridCellsAreInt32 | Assets/GenerateSideWalk.cs:139-147 | Cells of a grid whose sizes fit C#'s int have int coordinates, so the int.MaxValue/int.MinValue start values are beaten by every tile. |
| Scan.CellsWithCodeExact | Assets/GenerateSideWalk.cs:192-209 | GenerateFloor's list holds exactly the cells with the code, sorted in row-major order. |
| Scan.GridCellsExact | Assets/GenerateSideWalk.cs:192-209 | After x rows, the list holds exactly the cells with the code in those rows, in row-major order. |
| Scan.RowCellsExact | Assets/GenerateSideWalk.cs:194-207 | After z columns of row x, the list holds exactly that row's cells with the code before column z, in order. |
| FloodFill.BfsInit | Assets/GenerateSideWalk.cs:95-97 | A queue holding only the seed establishes the breadth-first-search invariant. |
| FloodFill.BfsSkip | Assets/GenerateSideWalk.cs:101-105 | Dropping a dequeued cell that is already visited keeps the invariant. |
| FloodFill.BfsVisit | Assets/GenerateSideWalk.cs:101-130 | Visiting a dequeued unvisited cell and enqueueing its open neighbours keeps the invariant. |
| FloodFill.BfsDone | Assets/GenerateSideWalk.cs:99-134 | With the queue empty, every footprint neighbour of a collected cell is collected or was visited before. An unvisited seed is the first collected cell. |
| Regions.AddRegion | Assets/GenerateSideWalk.cs:73-83 | A flooded region seeded at the first uncovered footprint cell is a region, and appending it keeps the scan invariant. |
| Regions.RegionsMeetingAreEqual | Assets/GenerateSideWalk.cs:115-130 | Two maximal connected regions that share a cell hold the same cells. |
| Regions.LabellingUnique | Assets/GenerateSideWalk.cs:65-88 | Any two component labellings of a grid hold the same regions as cell sets, whatever order they were found in. |
| Regions.NoFootprintNoRegions | Assets/GenerateSideWalk.cs:65-88 | A labelling has no regions exactly when the grid has no -10 cell. |
| Regions.AddRegionAdvancesScan | Assets/GenerateSideWalk.cs:73-83 | Once the region seeded at the scanned cell is added, the scan can move past that cell. |
| Regions.ScanNextCell | Assets/GenerateSideWalk.cs:71-73 | The scan moves past a cell that is covered or is no footprint cell. |
| Regions.ScanNextRow | Assets/GenerateSideWalk.cs:69-71 | Finishing a row moves the scan to the start of the next. |
| Regions.ScanComplete | Assets/GenerateSideWalk.cs:69-88 | After the last row the scan's regions form a complete component labelling. |
| Framing.LeadingWhiteSpace | Assets/TCPSocket.cs:73 | The prefix it measures is all white space and is maximal. |
| Framing.TrailingWhiteSpace | Assets/TCPSocket.cs:73 | The suffix it measures is all white space and is maximal. |
| Framing.Trim | Assets/TCPSocket.cs:73 | The trimmed message starts and ends with non-white-space (or is empty) and is no longer than the line. |
| Framing.TrimIsSlice | Assets/TCPSocket.cs:73 | The trimmed message is the line with a white-space prefix and suffix removed. |
| Framing.TrimPadded | Assets/TCPSocket.cs:73 | Trimming text padded by white space on both sides gives back the text. |
| Framing.TrimIdempotent | Assets/TCPSocket.cs:73 | Trimming twice is trimming once. |
| Framing.TrimKeepsNewlineFree | Assets/TCPSocket.cs:73 | Trimming introduces no newline. |
| Framing.IndexOfNewline | Assets/TCPSocket.cs:72 | The result is -1 exactly when there is no '\n'; otherwise it is the position of the first '\n'. |
| Framing.IndexOfNewlineAt | Assets/TCPSocket.cs:72 | A '\n' with none before it is the position found. |
| Framing.FrameOfNewlineFree | Assets/TCPSocket.cs:70 | A buffer without '\n' yields no line and stays whole. |
| Framing.FrameCut | Assets/TCPSocket.cs:70-74 | Framing cuts the line before the first '\n' and continues after that '\n'. |
| Framing.FrameNewlineFree | Assets/TCPSocket.cs:70 | After framing, neither the buffer nor any cut line contains '\n'. |
| Framing.FrameLossless | Assets/TCPSocket.cs:68-74 | No data is lost: each cut line followed by '\n', then the remaining buffer, gives back the framed text. |
| Framing.FrameCount | Assets/TCPSocket.cs:70-76 | The number of cut lines equals the number of '\n' in the framed text. |
| Framing.FrameJoined | Assets/TCPSocket.cs:70-74 | Framing newline-free lines, each followed by '\n', plus a newline-free rest gives back exactly those lines and rest. |
| Framing.FrameAppend | Assets/TCPSocket.cs:64-77 | Chunking invariance: framing a + b yields a's lines, then the lines of a's leftover plus b, and the same final buffer. |
| Framing.JoinedAppend | Assets/TCPSocket.cs:68-74 | Joining two line lists back to back joins their concatenation. |
| Framing.FirstEmpty | Assets/TCPSocket.cs:64-65 | It is the index of the first zero-length read, or the number of reads when there is none. |
| Framing.FeedChunk | Assets/TCPSocket.cs:67-77 | Feeding the next read continues the framing of the stream so far with the framing of its leftover plus the read. |
| Framing.TrimAll | Assets/TCPSocket.cs:73-76 | The messages are the lines in order, each trimmed. |
| Framing.TrimAllAppend | Assets/TCPSocket.cs:70-77 | The messages of consecutive line lists are the lists' messages in order. |
| Framing.MessagesNewlineFree | Assets/TCPSocket.cs:70-76 | No message handed to ProcessJSONMessage contains '\n'. |
| Dispatch.ActionsForSpec | Assets/TCPSocket.cs:126-157 | A grid action is enqueued exactly when the record has the matrix. An agent action is enqueued exactly when the position has two entries, and carries them. With both, the grid action comes first. A decode failure enqueues nothing. |
| Dispatch.ActionsForAll | Assets/TCPSocket.cs:70-77 | A list of messages enqueues at most two actions per message. |
| Dispatch.ActionsForAllAppend | Assets/TCPSocket.cs:64-77 | The actions of consecutive message batches are the batches' actions in order. |
| Dispatch.FailuresEnqueueNothing | Assets/TCPSocket.cs:154-157 | Messages that all fail to decode enqueue no action. |
| TcpServer.Server.constructor | Assets/TCPSocket.cs:13-20 | The server starts with an empty buffer and queue and keepReading false. |
| TcpServer.Server.ProcessJSONMessage | Assets/TCPSocket.cs:121-158 | The queue grows by exactly the actions for the decoded message; the buffer is untouched. |
| TcpServer.Server.ReceiveChunk | Assets/TCPSocket.cs:64-83 | A zero-length read clears keepReading and changes nothing else. Otherwise the buffer becomes the newline-free leftover of old buffer + read. The messages are the trimmed complete lines in order, one per '\n', none containing '\n'. The queue grows by their actions. |
| TcpServer.Server.ReadOne | Assets/TCPSocket.cs:60-83 | One turn of the read loop continues the stream's framing by one read. |
| TcpServer.Server.ServeClient | Assets/TCPSocket.cs:58-90 | Reads are handled up to and including the first zero-length one, and keepReading stays set only if there is none. Buffer, messages and queue are the framing of the old buffer plus the concatenation of the handled reads, however the text was split. |
| TcpServer.Server.Update | Assets/TCPSocket.cs:160-169 | Every queued action is invoked once, in enqueue order, and the queue is left empty. |

Notes on behaviour the model makes explicit:

- The receive buffer is a field of the server, not of a client connection. Text left unterminated when a client disconnects is therefore prefixed to the first line of the next client (`ServeClient` starts from the old buffer).
- `walkableTiles` is never cleared. Every `GenerateFloor` run, including the one in `BuildCityFromMatrix`, appends behind the old entries.
- `GetConnectedTiles` marks a cell when it is dequeued, not when it is enqueued. A cell can therefore sit in the queue more than once; the second copy is skipped. After a seed that the scan found unvisited, the returned region is never empty, so the `Count > 0` test in `PlaceBuildings` always passes.

## Left out

- Sockets, threads and locking. The socket binding, listening, accepting and closing, the background thread, the `lock`, `volatile keepReading`, `StartServer`, the component lookup in `Start` of `TCPSocket.cs`, `OnDisable`, `OnApplicationQuit` and `GracefulShutdown` are I/O and concurrency. A read is a parameter holding the received text, and the queue is used by one thread.
- The `SocketException` handler of the read loop. The model has no failing read; a zero-length read is the only way a client's loop ends.
- TcpServer.Server.ServeClient: models a finite sequence of reads. A client that never sends a zero-length read keeps `keepReading` set after the last modelled read, rather than blocking in `Receive`.
- UTF-8 decoding. Each read is modelled as the already decoded text. Chunking invariance is therefore stated over decoded text; the source decodes each read separately, so a multi-byte character split across two reads is not covered.
- `JsonConvert.DeserializeObject`. It is an abstract function `decode` from a message to a `Decoded` record. `Failure` stands for both an exception and a null result, each of which ends in the catch block and enqueues nothing.
- `ConvertToIntegerMatrix` and `Mathf.RoundToInt` are float-to-int rounding, a floating-point concern. A grid action carries the decoded real matrix.
- What a queued action does when invoked. `Update` returns the invoked actions in order. Their effects, `BuildCityFromMatrix` and `SpawnWalker`, are modelled on `FloorGenerator` but not connected to the server.
- `String.IndexOf("\n")` is modelled as an ordinal search for the first '\n', so the model assumes it agrees with the ordinal `Contains("\n")` test of the loop.
  - On a runtime whose culture-sensitive `IndexOf` disagrees (for example `"\r\n"` under ICU, where it gives -1), `Substring(0, -1)` throws `ArgumentOutOfRangeException`.
  - The `SocketException` handler does not catch that exception. It reaches the outer handler, which ends the whole listener.
  - The model does not capture that path.
- Unity object work is not modelled: `Instantiate`, `Destroy`, `Debug.Log`, `Debug.DrawRay`, and the random prefab choice of `PlaceBuilding`.
- The float placement. The `cellSize` scaling of positions, width, depth and centre and the renderer-bounds scale adjustment are floats tied to the engine renderer. The placement is kept in cell units.
- `SmoothMoveWalker`, its rotation and interpolation over frames, and the `Physics.Raycast` ground query `GetGroundYAtPosition` are floats, physics and frame timing. `SpawnWalker` returns the spawn-or-move command it would issue.
- The unused fields `obstaclePositions`, `agentMovementQueue` and `isMoving` are not modelled.
- `cellSize` and `walkerYOffset` are used only by the float placement and the walker height above the ground. Both are left out above.
- The prefab fields are assumed assigned in the inspector, and `buildingPrefabs` is assumed non-empty.
  - Under that assumption, `prefab != null` in `GenerateFloor` means exactly that the code has a tile kind (`PrefabForValue(code).Some?`).
  - An unassigned `streetPrefab` would make the source collect no walkable tiles.
  - An empty `buildingPrefabs`, or a null `walkerPrefab`, would make `PlaceBuilding` or `SpawnWalker` throw. That would abort `PlaceBuildings` or `BuildCityFromMatrix` part-way, and leave the rest of `Update`'s queue for the next frame.
  - The model has no such exception path: no queued action throws.
- PlaceBuilding: the doubled centre `minX + maxX + 1` is computed as an unbounded integer. The source computes it as a C# `int` sum, which wraps once `minX + maxX` reaches `int.MaxValue`, so only for grids with more than 2^30 rows or columns. `Bounds.PlacementFitsInt32` proves that grids of at most 2^30 rows and columns cannot wrap.
