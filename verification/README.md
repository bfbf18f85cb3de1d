# A maze game, a Tux controller line discipline, a teaching kernel and a blink list, verified

This project models the stateful cores of the repository in Dafny and proves what they are for.

- **The maze game (`mp2_rthakk21`).** The maze is a one-dimensional byte array in which the left boundary of a row and the right boundary of the row above are the same bytes. A worm digs it, a repair phase joins every node to (1,1), and a game pans a 320 x 182 view over its picture through a sliding planar build buffer. The model keeps the array, the breadth-first queue, the buffer and the video memory as arrays that methods update in place. The main theorems are `GameModule.Game.Tick`: whatever is asked for, after every tick the buffer holds the picture of the maze at every pixel of the view, the monitor shows it with the player on top, and the player is where the motion rules put him; and `Level.NeverStuck`: however a level has been played, there are keys that still win it.
- **The Tux line discipline (`mp2_rthakk21/module`).** Two ring buffers and an incremental packet framer. Every run of calls does what the same run does to two bounded queues; the queues are first in, first out and lose nothing, and the packets handed on are exactly those of the byte stream, however it was cut up.
- **The kernel's process stack, descriptor tables and files (`mp3_group_59/student-distrib`).** Over every run of execute, halt, open, close, read and write, the pid, the process block pointer, the kernel stack pointer and the program page agree and every call answers what it should, from the first call of a program on; when a program halts, its parent finds everything as it was; a file reads as a sequence of bytes.
- **The blink list (`mp1_rthakk21`).** The linked list of blinking characters and the text screen agree after every request, and each character stays for its own number of ticks.

Every method is proved against functions of its inputs or of the old state, and what the source promises is then proved about these functions: as invariants of every run, and as laws that say in coordinates, counts, ticks or answers what a caller sees.

## How the files fit together

| file | contents |
|---|---|
| MazeCell, Lattice, MazeGraph | the cell byte, the index arithmetic, reachability, the number of nodes |
| MazeShape, MazeJoin, MazeDig, MazeWorms, WormLaws, MazeReady, Maze | marking, the connection phase, one worm, the worm phase, how often a worm turns, the finished maze, and the class that does it in place |
| Pixels, Display | build buffer addresses, drawing, panning, the screen |
| MazeImage, Drawing, Motion, Game | the picture of a maze, when a partial redraw is enough, the motion rules, the game |
| Walking, Level | where the player can go; a level as a function of the keys pressed, and how it is won |
| MotionLaws, LevelLaws | what the player sees of the rules, in coordinates: turning, stopping, panning, uncovering, winning |
| Framer, LineSpec, TuxLine | packets of a byte stream; the calls of the line discipline as values; ring buffers and the line discipline |
| FileSystem, ProcessState, SystemCalls, CallLaws, Kernel | files, the process stack as values, what system calls do and answer, what a program can rely on from one call to the next, the system calls |
| Arith | what several modules need |
| BlinkSpec, BlinkTwice, BlinkCycle, BlinkList | requests as values, locations that are listed twice, how long each character stays, the linked list in the heap |

## Findings

Where a property does not hold of the code on all inputs, the exact condition is proved.

- Drawing the player with `draw_mask_block` and undrawing with `draw_full_block` restores the view if and only if the block is off the view, or its first row and column are visible and its rows are whole or there is only one of them: the save buffer is filled by the number of visible pixels, but read back by position (`Pixels.UndrawRestoresIff`, with a position where it goes wrong in `Pixels.NotAlwaysRestorable`). The game always meets the condition (`Motion.PlayerInSight`).
- `unveil_space` redraws one of the two places that show a boundary cell. The rest of the view stays right if and only if the other place is out of view (`Drawing.UnveilStaysRightIff`, with a view where it is not in `Drawing.AliasInView`). No view of a legal maze shows both boundaries (`Drawing.BoundariesApart`), and the player is never where it would matter (`Motion.UnveilSafe`).
- `read_data` computes the end of the request in 32 bits, so it returns min(length, bytes left) if and only if the offset is at or past the end of the file, or offset + length does not wrap (`FileSystem.ReadCountIff`).
- `write_wakeup` passes up to one byte more than the driver has room for (its loop tests `n <= room`). It stays within the room if and only if everything queued fits (`LineSpec.WakeupFitsIff`).
- Right after a blink location that is already listed has been added, list and screen agree if and only if every listed element at that location shows the new character at that moment (`BlinkSpec.AddShowsIff`). That need not last (`BlinkSpec.AddThenTick`): they agree over every run that follows if and only if the two elements have one and the same character for both states (`BlinkTwice.DuplicateSafeIff`). With unlisted locations they agree over every run (`BlinkSpec.RunAgrees`).
- After a failed execute with five processes `pid` holds the error value -99; the process block pointer is still right, and the next halt repairs it (`ProcessState.ExecuteKeeps`, `ProcessState.HaltKeeps`).
- `system_execute` copies a program into one 4 MB page from 0x08048000 on, without comparing its length with the room there. The copy stays in the page if and only if the file has at most 0x3B8000 bytes (`ProcessState.CopyStaysInPageIff`); `ProcessState.ProgramTooLong` is an image with a longer program. A longer one faults at the end of the page, and the handler halts the new process: the process stack is in order again, but the registers that halt returns through were never saved and are 0 (`ProcessState.FaultHalts`). Of the programs that fit, all are entered: the failure return after the copy is never taken (`KernelModule.Kernel.SystemExecute`).
- `directory_read` admits one entry past the last of the directory: from the start, n reads list entries of the directory only, if and only if n is at most their number (`FileSystem.ListingIff`, with a directory of one entry that lists two names in `ProcessState.OneNameTooMany`). It stores 32 bytes whatever size is asked for: a read keeps to the size if and only if that is 32 or more, or no entry is left, or it is a file that is read (`SystemCalls.ReadStaysWithinIff`).

## Model

| member | source | states |
|---|---|---|
| MazeCell.EncodeInjective | mp2_rthakk21/maze.h:59-68 | the byte of a maze cell determines the cell, so comparing bytes with MAZE_WALL compares cells |
| MazeCell.TestBits | mp2_rthakk21/maze.h:59-68 | every mask test reads exactly its own property of the cell |
| MazeCell.UpdateBits | mp2_rthakk21/maze.h:59-68 | setting and clearing a mask changes one property and keeps the others; fruit can be added only where there is none |
| Lattice.IdxIsMacro | mp2_rthakk21/maze.c:91 | the row-by-row index is the one MAZE_INDEX computes |
| Lattice.IdxBounds | mp2_rthakk21/maze.c:91 | every index the maze code forms for a legal size is inside the array |
| Lattice.IdxUnique | mp2_rthakk21/maze.c:91 | within columns 0 to W - 1 different points have different bytes |
| Lattice.IdxWrap | mp2_rthakk21/maze.c:580-589 | the right boundary of a row is the left boundary of the next row |
| Lattice.Neighbours | mp2_rthakk21/maze.c:279-290 | the four bounds tests ask exactly whether the node two cells away exists, although the array wraps |
| MazeGraph.CountNodes | mp2_rthakk21/maze.c:250 | there are x_dim * y_dim (odd,odd) points, counted as array indices |
| MazeShape.OpenSide | mp2_rthakk21/maze.c:128-161 | in a shaped maze an open cell beside a node leads to an open node, so the marker needs no bounds test |
| MazeShape.ShapeFenced | mp2_rthakk21/maze.c:239-250 | the whole boundary and all (even,even) points of a shaped maze are walls |
| MazeShape.OpeningKeepsShape | mp2_rthakk21/maze.c:299-322 | opening a node, or a cell between two open nodes, keeps the shape |
| MazeShape.SearchStart | mp2_rthakk21/maze.c:104-122 | the search starts with the start node marked and enqueued |
| MazeShape.SearchStep | mp2_rthakk21/maze.c:128-161 | marking and enqueueing an unmarked neighbour keeps the search invariant, and the queue never holds more than x_dim * y_dim entries |
| MazeShape.SearchDone | mp2_rthakk21/maze.c:123-171 | when the queue has run empty, the marked set is the whole area reachable from the start without crossing walls or marked nodes |
| MazeModule.Maze.VisitNeighbour | mp2_rthakk21/maze.c:128-161 | one test of the marking loop: an enterable unmarked neighbour is marked and enqueued once, and no array access is out of range |
| MazeModule.Maze.ExploreFrom | mp2_rthakk21/maze.c:123-161 | after the four tests all neighbours of the dequeued node have been found |
| MazeModule.Maze.MarkArea | mp2_rthakk21/maze.c:104-171 | marks exactly the reachable area and returns its size |
| MazeJoin.JoinStart | mp2_rthakk21/maze.c:336 | the first marking establishes that the marked set is the component of (1,1) and `remaining` counts the rest |
| MazeJoin.OpenCellKeeps | mp2_rthakk21/maze.c:366-375 | removing the wall between an unmarked and a marked node keeps the shape and the marks |
| MazeJoin.JoinComponent | mp2_rthakk21/maze.c:366-378 | then the component of (1,1) is the old one and the area behind the wall, no more and no less |
| MazeJoin.JoinStep | mp2_rthakk21/maze.c:362-380 | the marked set stays the component of (1,1) and the count stays exact when a region is joined, and the count gets smaller |
| MazeJoin.FindFrontier | mp2_rthakk21/maze.c:345-361 | from any unmarked node an unmarked node next to a marked one is found by walking towards (1,1) |
| MazeJoin.FrontierExists | mp2_rthakk21/maze.c:345-381 | while nodes remain, a wall can be removed somewhere, so a full sweep always makes progress |
| MazeJoin.ScanApproaches | mp2_rthakk21/maze.c:345-354 | each step of the row-major wrapping scan stays on the nodes and reaches a given node or comes closer to it |
| MazeJoin.AllJoined | mp2_rthakk21/maze.c:381 | when nothing remains, every node is marked and joined to (1,1) |
| MazeJoin.RepairStep | mp2_rthakk21/maze.c:362-380 | every wall the repair removes separates two nodes that the worms had left unjoined |
| MazeModule.Maze.KnockWall | mp2_rthakk21/maze.c:366-375 | removes the wall to a marked neighbour if there is one, and changes nothing otherwise |
| MazeModule.Maze.TryJoin | mp2_rthakk21/maze.c:362-380 | an attempt succeeds exactly when the node has a marked neighbour; it opens one cell and lowers `remaining` |
| MazeModule.Maze.ConnectAll | mp2_rthakk21/maze.c:336-381 | the connection phase terminates with every node joined to (1,1), and no wall is removed between nodes already joined |
| MazeDig.SomeWeight | mp2_rthakk21/maze.c:278-291 | the total weight is never 0, so the draw is never taken modulo 0 |
| MazeWorms.DrawFor | mp2_rthakk21/maze.c:278-292 | every direction inside the grid is picked by some draw below the total weight |
| MazeDig.ChosenInGrid | mp2_rthakk21/maze.c:278-292 | no direction that leaves the grid is ever picked |
| MazeDig.PickIs | mp2_rthakk21/maze.c:291-292 | the picked direction is the one whose share of the cumulative weights holds the draw |
| MazeDig.PickUnique | mp2_rthakk21/maze.c:291-292 | the shares of two directions do not overlap |
| MazeDig.DigStart | mp2_rthakk21/maze.c:237-250 | in the walled array `remaining` is the number of nodes |
| MazeDig.DigNode | mp2_rthakk21/maze.c:317-322 | emptying a node keeps the shape and `remaining` equal to the number of walled nodes |
| MazeDig.DigStep | mp2_rthakk21/maze.c:299-322 | a bite between two nodes keeps the shape and the count |
| MazeDig.DigDone | mp2_rthakk21/maze.c:329 | when the worms are done every node is open and nothing is marked |
| MazeDig.WormIsJoined | mp2_rthakk21/maze.c:264-325 | whatever is drawn, a worm's end is joined to its start, and nothing it finds open is closed |
| MazeWorms.BiteKeeps | mp2_rthakk21/maze.c:299-322 | a bite leaves the worm on an open node and keeps shape and count |
| MazeWorms.WormsKeep | mp2_rthakk21/maze.c:250-329 | the worms keep the digging invariant, whatever is drawn, however many there are |
| MazeWorms.TurnSoon | mp2_rthakk21/maze.c:264-297 | wherever a worm is and wherever it is heading, it turns back for some next two draws at most, of numbers that random() can return |
| MazeWorms.PhaseCanEnd | mp2_rthakk21/maze.c:250-329 | however the worms have gone so far, more draws, of numbers that random() can return, and more worms can end the phase with no node walled |
| MazeWorms.SomePhaseEnds | mp2_rthakk21/maze.c:250-329 | for every legal size some draws that random() can return and some worm starts end the phase with no node walled |
| MazeModule.Maze.CumulativeWt | mp2_rthakk21/maze.c:278-290 | the code computes the cumulative weights of the four directions |
| MazeModule.Maze.ChooseDirection | mp2_rthakk21/maze.c:291-292 | the code picks the direction that the weights define, always inside the grid |
| WormLaws.DrawShares | mp2_rthakk21/maze.c:218-292 | a random number counts modulo the total, and of one round of them 84 send the worm straight on into a wall, 9 to either side into a wall, 1 straight on or to a side that is empty already, 3 back whatever is there, and none outside the grid |
| MazeModule.Maze.MoveWorm | mp2_rthakk21/maze.c:299-322 | one move empties exactly the two cells ahead and keeps the digging invariant |
| MazeModule.Maze.RunWorm | mp2_rthakk21/maze.c:258-327 | a worm leaves the maze the worm function of the draws gives, and lowers `remaining` |
| MazeModule.Maze.DigWorms | mp2_rthakk21/maze.c:250-329 | the maze left is the one the worms dig from the starts reported; all nodes are open, unless the draws ran out before the last worm turned back |
| MazeModule.Maze.FillWithWalls | mp2_rthakk21/maze.c:237 | every cell is a wall |
| MazeModule.Maze.ClearMarks | mp2_rthakk21/maze.c:387-389 | clearing the (odd,odd) points clears all marks, because only nodes are marked, and changes nothing else |
| MazeReady.OpenInteriorKeeps | mp2_rthakk21/maze.c:401-407 | opening the interior keeps every connection and the closed boundary |
| MazeModule.Maze.RemoveAllWalls | mp2_rthakk21/maze.c:401-407 | opens exactly the interior |
| MazeReady.AddFruitCounts | mp2_rthakk21/maze.c:701-704 | placing a fruit on an unfruited node raises the number of fruited cells by one |
| MazeReady.EatFruitCounts | mp2_rthakk21/maze.c:626-632 | taking a fruit lowers the number of fruited cells by one, and it was positive |
| MazeModule.Maze.AddFruit | mp2_rthakk21/maze.c:690-711 | one unfruited node gets a fruit, nothing else changes, and `n_fruits` stays the number of fruited cells |
| MazeModule.Maze.PlaceFruits | mp2_rthakk21/maze.c:410-412 | the requested number of fruits is placed and nothing but fruit changes |
| MazeModule.Maze.PlaceExit | mp2_rthakk21/maze.c:415-421 | there is exactly one exit, on an unfruited node, and nothing else changes |
| MazeModule.Maze.DigAndJoin | mp2_rthakk21/maze.c:250-407 | unfinished exactly when the draws run out; else a bare maze, closed outside and connected inside, that the repair has made of what the worms dug |
| MazeModule.Maze.MakeMaze | mp2_rthakk21/maze.c:217-424 | -1 exactly for illegal sizes with nothing changed; cut exactly when the draws run out; else a connected, fenced, unmarked maze made of what the worms dug, with the right fruit count and one unfruited exit |
| Pixels.OffInjective | mp2_rthakk21/modex.c:551-603 | the pixel addresses of a window are distinct at every alignment |
| Pixels.InBuffer | mp2_rthakk21/modex.c:386-411 | if the corners of the window fit, every pixel of it lies in the buffer |
| Pixels.MiddleFits | mp2_rthakk21/modex.c:67-73 | a window placed in the middle of the buffer fits, wherever it is |
| Pixels.CopiedStretch | mp2_rthakk21/modex.c:417-463 | the stretch copied holds every pixel of the overlap and stays in the buffer |
| Pixels.Clip | mp2_rthakk21/modex.c:560-584 | the clipped rectangle is exactly the part of the block in the view |
| Pixels.NthOrder | mp2_rthakk21/modex.c:653-672 | counting visible pixels row by row numbers them in reading order, without gaps above the block size |
| Pixels.UndrawRestoresIff | mp2_rthakk21/modex.c:614-675 | undrawing restores every view and every save buffer if and only if the block is restorable |
| Pixels.NotAlwaysRestorable | mp2_rthakk21/modex.c:614-675 | a position at which undrawing does not restore |
| Pixels.PlanePixel | mp2_rthakk21/modex.c:492-521 | display plane dx mod 4, byte dy * 80 + dx / 4 of the image copied is logical pixel (dx,dy), at every alignment |
| DisplayModule.Display.constructor | mp2_rthakk21/modex.c:294-306 | mode X starts with the view at (0,0) in the middle of the buffer, and the fence filled |
| DisplayModule.Display.MoveBytes | mp2_rthakk21/modex.c:465-480 | the two copy loops move a stretch as a whole although source and target may overlap |
| DisplayModule.Display.SetViewWindow | mp2_rthakk21/modex.c:386-481 | moving the view anywhere keeps every pixel in both views and every address in the buffer, and leaves the memory fence alone |
| DisplayModule.Display.Recentre | mp2_rthakk21/modex.c:417-481 | moving the overlap to the middle of the buffer keeps every pixel of it at its new address |
| DisplayModule.Display.FullRow | mp2_rthakk21/modex.c:594-600 | one row of a block gets the picture's values and no other byte changes |
| DisplayModule.Display.DrawFullBlock | mp2_rthakk21/modex.c:551-603 | the visible pixels of the block get its values and no other byte changes |
| DisplayModule.Display.MaskOneRow | mp2_rthakk21/modex.c:659-674 | one row is drawn where the mask says, all of it is saved, and what was saved before stays |
| DisplayModule.Display.DrawMaskBlock | mp2_rthakk21/modex.c:614-675 | the visible masked pixels are drawn and all visible ones saved, as the code indexes them, and no other byte changes |
| DisplayModule.Display.CopyHorizLine | mp2_rthakk21/modex.c:744-778 | the row gets the line's pixels and no other visible pixel changes |
| DisplayModule.Display.CopyVertLine | mp2_rthakk21/modex.c:698-729 | the column gets the line's pixels and no other visible pixel changes |
| DisplayModule.Display.CopyImage | mp2_rthakk21/modex.c:1109-1124 | copies what the buffer holds from the image on and writes nothing outside the 16000 bytes of the page |
| DisplayModule.Display.ShowScreen | mp2_rthakk21/modex.c:492-521 | flips the page and shows the view, without writing the page that was displayed or the status bar |
| DisplayModule.Display.ShowOver | mp2_rthakk21/mazegame.c:663-667 | draw, show, undraw: the picture is seen over the view and the buffer ends up byte for byte as it was |
| MazeImage.FindBlock | mp2_rthakk21/maze.c:445-480 | every cell has a picture within the table |
| MazeImage.PictureTells | mp2_rthakk21/blocks.h:72-109 | from the picture of a place the exit, mist, fruit with its number, empty space and the wall connections named in the picture can be read off exactly |
| MazeImage.AliasSamePicture | mp2_rthakk21/maze.c:580-589 | the two places of a boundary cell show the same picture |
| MazeImage.MapAlias | mp2_rthakk21/maze.c:580-589 | two points of the map share a cell only across the two boundaries |
| MazeImage.UnveilChanges | mp2_rthakk21/maze.c:445-480 | uncovering a cell changes the picture of no other cell |
| MazeImage.FruitChanges | mp2_rthakk21/maze.c:445-480 | a change of fruit changes only its own picture, and the exit's when the last fruit goes or the first comes |
| MazeImage.FillHorizBuffer | mp2_rthakk21/maze.c:493-521 | every byte of the line is the block picture at that pixel |
| MazeImage.FillVertBuffer | mp2_rthakk21/maze.c:534-565 | the same pixel function for a column |
| Motion.ChooseKeeps | mp2_rthakk21/mazegame.c:637-658 | after choosing, the player is on track to an open square, and moves exactly if a direction is set |
| Motion.TurnKeeps | mp2_rthakk21/mazegame.c:610-624 | turning back in the middle of a square keeps position plus remaining moves block-aligned on an open square |
| Motion.AdvanceKeeps | mp2_rthakk21/mazegame.c:180-268 | one move with its panning keeps the player in sight and the view on the map |
| Motion.StepKeeps | mp2_rthakk21/mazegame.c:606-692 | every tick keeps the motion invariant, whatever is asked for |
| Motion.RunKeeps | mp2_rthakk21/mazegame.c:585-693 | so does every run of ticks |
| Motion.RunOfWalls | mp2_rthakk21/mazegame.c:606-692 | fruit and mist have no influence on the motion |
| Motion.PlayerInSight | mp2_rthakk21/mazegame.c:663-691 | the player's block is never clipped, so it can be undrawn |
| Motion.PlayerOnOpenCells | mp2_rthakk21/mazegame.c:606-692 | every pixel of the player is over a cell that is not a wall |
| Motion.WindowOnMap | mp2_rthakk21/mazegame.c:180-268 | every pixel of the view is a pixel of the map |
| Motion.UnveilSafe | mp2_rthakk21/mazegame.c:283-302 | when a boundary cell is uncovered near the player, its other place is out of view |
| Motion.LevelLegal | mp2_rthakk21/mazegame.c:133-161 | every level asks for a maze of legal size with room for its fruit |
| MotionLaws.TurnsBackAtOnce | mp2_rthakk21/mazegame.c:610-624 | in mid-square the opposite direction takes effect in the same tick: one pixel back, and as many moves to go as had been made, less one |
| MotionLaws.BackToTheSquareLeft | mp2_rthakk21/mazegame.c:610-624 | held for as many ticks as the player had gone into the square, it leads exactly back to the open square he left |
| MotionLaws.OthersWait | mp2_rthakk21/mazegame.c:610-662 | any other direction asked for in mid-square waits: the player goes on one pixel the way he was going |
| MotionLaws.AtASquare | mp2_rthakk21/mazegame.c:637-658 | at a square the direction asked for is taken when the square there is open; otherwise the player keeps going when the square ahead is open and he was not asked to turn back; otherwise he stops |
| MotionLaws.NothingAsked | mp2_rthakk21/mazegame.c:637-658 | when no direction is asked for, he keeps going or stops by what is read past the open directions |
| MotionLaws.ViewFollows | mp2_rthakk21/mazegame.c:180-268 | the view moves only when the player comes closer to its border than five squares, by one pixel and the way he goes; the picture is that of the last direction of motion |
| MotionLaws.LevelsGrow | mp2_rthakk21/mazegame.c:133-158 | level 1 has 14 x 8 nodes and one fruit; each level has two nodes more each way up to 50 x 30, and every second level a fruit more up to six |
| Drawing.PointImage | mp2_rthakk21/maze.c:601-604 | drawing a cell's block draws the image of the maze over that cell |
| Drawing.UnveilImage | mp2_rthakk21/maze.c:577-606 | with the other boundary out of view, redrawing the uncovered cell is enough |
| Drawing.EatImage | mp2_rthakk21/maze.c:619-647 | redrawing the eaten fruit's cell, and the exit when it was the last fruit, is enough |
| Drawing.ExitOpen | mp2_rthakk21/maze.c:415-421 | the exit is on an open square inside the maze |
| Drawing.AtExit | mp2_rthakk21/maze.c:671-678 | a player who wins stands exactly on the exit |
| Drawing.BoundariesApart | mp2_rthakk21/maze.c:580-589 | no view of a legal maze shows both side boundaries |
| Drawing.UnveilStaysRightIff | mp2_rthakk21/maze.c:577-606 | redrawing one place leaves the rest of the view right if and only if the other place of the cell is out of view |
| Drawing.AliasInView | mp2_rthakk21/maze.c:577-606 | a view in which the other place of a boundary cell is visible |
| Walking.Coast | mp2_rthakk21/mazegame.c:606-692 | a direction held carries the player to the end of the square |
| Walking.OneSquare | mp2_rthakk21/mazegame.c:606-692 | twelve ticks carry a standing player to any open square beside |
| Walking.NodeToNode | mp2_rthakk21/maze.c:331-381 | what the connection phase is for: with keys that ask for the four directions only, the player can walk from every node to every other |
| Walking.AnywhereToNode | mp2_rthakk21/mazegame.c:606-692 | from every state of play there are such keys that bring the player to every node |
| Level.PlayIsRun | mp2_rthakk21/mazegame.c:585-693 | until the level is won the motion is that of the run; fruit only gets less, and goes where the player stands |
| LevelLaws.TickVisits | mp2_rthakk21/mazegame.c:283-302 | a tick at a square uncovers the cells at most two steps away and takes the fruit there; a tick in mid-square changes no cell |
| LevelLaws.LevelVisits | mp2_rthakk21/mazegame.c:585-693 | over a whole level exactly the cells near the squares the player has been at are uncovered and exactly the fruit on those squares is gone |
| LevelLaws.WonMeans | mp2_rthakk21/maze.c:671-678 | a level is won only at the exit and with no fruit left anywhere |
| LevelLaws.WonAtOnce | mp2_rthakk21/maze.c:671-678 | it is won in the very tick that finds the player at the exit with no fruit elsewhere |
| Level.PlayAppend | mp2_rthakk21/mazegame.c:585-693 | a won level stays won; otherwise play goes on from where it stands |
| Level.WinFromNode | mp2_rthakk21/mazegame.c:626-635 | from every node such keys lead to all fruit and then to the exit, and win |
| Level.LevelCanBeWon | mp2_rthakk21/mazegame.c:585-693 | from every state of play there are keys, asking for the four directions only, with which the level is won |
| Level.NeverStuck | mp2_rthakk21/mazegame.c:585-693 | however it has been played, more such keys win the level |
| Level.NewLevel | mp2_rthakk21/mazegame.c:511-531 | a maze as it is made, with the player at (1,1), is in play |
| GameModule.Game.DrawHorizLine | mp2_rthakk21/modex.c:744-778 | -1 off the view, else the row shows the image of the maze and the rest is unchanged |
| GameModule.Game.DrawVertLine | mp2_rthakk21/modex.c:698-729 | the same for a column |
| GameModule.Game.UnveilSpace | mp2_rthakk21/maze.c:577-606 | uncovers the one cell (points off the map are ignored), and the view still shows the maze |
| GameModule.Game.CheckForFruit | mp2_rthakk21/maze.c:619-647 | returns and takes the fruit there, keeps the count, and the view still shows the maze, with the exit when it appears |
| GameModule.Game.UnveilAroundPlayer | mp2_rthakk21/mazegame.c:283-302 | eats, uncovers exactly the cells around, reports a win, and the view still shows the maze |
| GameModule.Game.MoveUp | mp2_rthakk21/mazegame.c:180-194 | moves and pans up, and the view still shows the maze |
| GameModule.Game.MoveRight | mp2_rthakk21/mazegame.c:204-219 | moves and pans right, and the view still shows the maze |
| GameModule.Game.MoveDown | mp2_rthakk21/mazegame.c:229-244 | moves and pans down, and the view still shows the maze |
| GameModule.Game.MoveLeft | mp2_rthakk21/mazegame.c:254-268 | moves and pans left, and the view still shows the maze |
| GameModule.Game.ShowPlayer | mp2_rthakk21/mazegame.c:663-667 | the monitor shows the maze with the player on top; the buffer is byte for byte unchanged |
| GameModule.Game.ChooseSquare | mp2_rthakk21/mazegame.c:637-658 | the choice at a new square is the one of the motion rules |
| GameModule.Game.TakeDirection | mp2_rthakk21/mazegame.c:606-659 | the new state is the decision of the motion rules on the uncovered maze; a win is reported exactly on the exit with no fruit left |
| GameModule.Game.Tick | mp2_rthakk21/mazegame.c:606-692 | every tick keeps buffer, maze, motion and fruit count in agreement, moves by the motion rules, shows the result, and stops exactly on a win |
| GameModule.Game.PrepareMazeLevel | mp2_rthakk21/mazegame.c:133-170 | never fails, and is cut exactly when the draws run out; the new level has the dimensions and fruit of its number, and the view shows the new maze |
| GameModule.Game.DrawView | mp2_rthakk21/mazegame.c:164-166 | line by line the whole view shows the maze |
| GameModule.Game.StartLevel | mp2_rthakk21/mazegame.c:511-540 | the level starts in play, in a maze made for its number, with the player at (1,1) on the monitor; or the draws ran out |
| GameModule.Game.PlayLevel | mp2_rthakk21/mazegame.c:585-693 | over any keys, the maze, the player, the number of ticks and whether the level is won are those of the level function; a won level has no fruit left and the player on the exit |
| GameModule.Game.PlayGame | mp2_rthakk21/mazegame.c:503-700 | every level is made for its number and ends as the level function says of its keys; all but the last are won, and the game is over only when the tenth is |
| Framer.PacketPositions | mp2_rthakk21/module/mtcp.h:26-31 | the packets of a stream are, in order, what stands at exactly the positions with high bits 0, 1, 1 |
| Framer.FramingBits | mp2_rthakk21/module/mtcp.h:26-31 | three bytes are a packet exactly when the first is below 0x80 and the others are not |
| Framer.ScanLosesNothing | mp2_rthakk21/module/tuxctl-ld.c:299-317 | skipping over packets and stopping two bytes early loses no packet of the stream, whatever comes next |
| Framer.FeedLosesNothing | mp2_rthakk21/module/tuxctl-ld.c:286-318 | the same over any sequence of calls, with at most two bytes carried over |
| Framer.FramerComplete | mp2_rthakk21/module/mtcp.h:26-31 | however the stream comes in, the packets handed on are exactly the packets of the stream, in order |
| Framer.ChunkIndependence | mp2_rthakk21/module/tuxctl-ld.c:286-318 | however one byte stream is split across calls, the same packets come out |
| Framer.FramingStep | mp2_rthakk21/module/tuxctl-ld.c:286-318 | one call keeps packets and remainder in step with the stream |
| Framer.FramingExact | mp2_rthakk21/module/tuxctl-ld.c:286-318 | what has been handed on is all there is in what was scanned |
| TuxLineModule.ScanBuffer | mp2_rthakk21/module/tuxctl-ld.c:299-317 | the scanning loop finds all packets of the buffer and leaves the last two bytes at most |
| TuxLineModule.Ring.Macros | mp2_rthakk21/module/tuxctl-ld.c:99-107 | the macros compute length, room, emptiness and fullness of the queue |
| TuxLineModule.Ring.Push | mp2_rthakk21/module/tuxctl-ld.c:99-107 | a byte is added at the end of the queue |
| TuxLineModule.Ring.Pop | mp2_rthakk21/module/tuxctl-ld.c:99-107 | the oldest byte is taken |
| LineSpec.WakeupFitsIff | mp2_rthakk21/module/tuxctl-ld.c:197-204 | the bytes passed fit the driver's room if and only if all queued bytes do; else there is one too many |
| LineSpec.MovesAll | mp2_rthakk21/module/tuxctl-ld.c:160-318 | a byte is refused only when 63 are queued; the callback leaves a byte queued only when it holds twelve; a reader gets what he asks for or all there is; a write or wakeup leaves bytes queued only when it has passed one more than there was room for |
| TuxLineModule.TuxLine.RcvBuf | mp2_rthakk21/module/tuxctl-ld.c:160-184 | accepts the bytes that fit, in order, and drops the rest |
| TuxLineModule.TuxLine.Get | mp2_rthakk21/module/tuxctl-ld.c:225-242 | returns the oldest bytes, as many as asked for and queued |
| TuxLineModule.TuxLine.WriteWakeup | mp2_rthakk21/module/tuxctl-ld.c:189-215 | passes the oldest queued bytes to the driver |
| TuxLineModule.TuxLine.Put | mp2_rthakk21/module/tuxctl-ld.c:249-272 | returns exactly the number of bytes not accepted; the accepted ones are queued in order |
| TuxLineModule.TuxLine.DataCallback | mp2_rthakk21/module/tuxctl-ld.c:286-318 | reads up to 12 bytes with those kept, hands on and keeps what a scan of them gives; the packets so far are those of all bytes scanned |
| LineSpec.RunLosesNothing | mp2_rthakk21/module/tuxctl-ld.c:160-272 | over every run of calls, what was queued and accepted is what was handed out and is queued, in order, in both directions |
| LineSpec.RunFrames | mp2_rthakk21/module/tuxctl-ld.c:286-318 | over every run, packets and kept bytes stay in step with the bytes the callback has read |
| LineSpec.RunPackets | mp2_rthakk21/module/tuxctl-ld.c:286-318 | from the start, the packets of a run are those of all bytes the callback has read |
| LineSpec.OnlyCallback | mp2_rthakk21/module/tuxctl-ld.c:286-318 | when nobody else reads, what the callback has read is all that was taken out of the receive queue |
| LineSpec.NothingDropped | mp2_rthakk21/module/tuxctl-ld.c:160-184 | from an empty receive queue, when bytes come ten at a time at most, none is dropped and the callback reads them all |
| LineSpec.PacketsOfReceived | mp2_rthakk21/module/tuxctl-ld.c:160-318 | then, from the start, the packets handed on are exactly those of all bytes that have come |
| LineSpec.StreamsOfRun | mp2_rthakk21/module/tuxctl-ld.c:160-318 | a run extends every stream by what the calls of its direction accept and hand out |
| TuxLineModule.TuxLine.Serve | mp2_rthakk21/module/tuxctl-ld.c:160-318 | for any calls, the queues, the kept bytes and the result of every call are those of the run, and the streams are extended by exactly what the calls moved |
| ProcessState.ProcessesApart | mp3_group_59/student-distrib/syscall.c:617-619 | the program pages and kernel stacks of different processes do not overlap |
| ProcessState.CopyStaysInPageIff | mp3_group_59/student-distrib/syscall.h:18-24 | the addresses a program is copied to are all in its page if and only if it has at most 0x3B8000 bytes |
| ProcessState.ProgramTooLong | mp3_group_59/student-distrib/syscall.c:216-223 | an image with an executable that does not fit in the page |
| ProcessState.FaultHalts | mp3_group_59/student-distrib/IDT.c:118-123 | after a fault in the copy and the halt by the handler the process stack is the caller's again; the saved registers are 0 |
| ProcessState.AssignIsTop | mp3_group_59/student-distrib/syscall.c:629-638 | the next pid is the number of running processes, or the error value when there are five |
| ProcessState.ExecuteKeeps | mp3_group_59/student-distrib/syscall.c:192-252 | execute pushes one process and keeps the stack discipline; the blocks below are untouched; with five processes only `pid` changes |
| ProcessState.HaltKeeps | mp3_group_59/student-distrib/syscall.c:340-402 | halt pops one process, restores the discipline and a correct `pid`, and leaves the blocks below untouched |
| ProcessState.RestartKeeps | mp3_group_59/student-distrib/syscall.c:341-375 | the base shell is restarted as the only process |
| ProcessState.FdaKeeps | mp3_group_59/student-distrib/syscall.c:440-514 | a good descriptor table for the running process keeps the discipline |
| ProcessState.ApplyKeeps | mp3_group_59/student-distrib/syscall.c:106-514 | every system call keeps the discipline and the blocks of all callers |
| ProcessState.RunKeeps | mp3_group_59/student-distrib/syscall.c:106-514 | so does every run of them; the descriptor tables below stay as they are |
| ProcessState.LowerFloor | mp3_group_59/student-distrib/syscall.c:106-514 | a run that stays above some processes is a run, and ends in the same state |
| ProcessState.RunMore | mp3_group_59/student-distrib/syscall.c:106-514 | a run followed by one more call is the longer run |
| ProcessState.ExecuteHaltRoundTrip | mp3_group_59/student-distrib/syscall.c:106-429 | after an execute, any calls, and the matching halt, the pid, the block pointer, the stack pointer, the program page and all blocks below are as before, and the saved registers are found |
| ProcessState.FirstFreeIsLowest | mp3_group_59/student-distrib/syscall.c:459-490 | the descriptor found is the lowest unused one |
| ProcessState.OpenClose | mp3_group_59/student-distrib/syscall.c:440-514 | opening and closing keep the table good, and close undoes open for every other slot |
| ProcessState.ClosedWriteFails | mp3_group_59/student-distrib/filesystem.c:239-250 | a write to a closed descriptor yields -1 although the flag is not tested |
| CallLaws.NewProgram | mp3_group_59/student-distrib/syscall.c:190-215 | a program just entered is process k, with its arguments and its parent; its block is at 8 MB - 8 KB (k + 1), its kernel stack starts four bytes below the end of those 8 KB, its page is at 8 MB + 4 MB k |
| CallLaws.FirstCall | mp3_group_59/student-distrib/syscall.c:225-242 | whatever call a program makes first: writing works on descriptor 1 only and reading on 0 only, open gives 2 exactly when the entry can be opened, nothing can be closed, and halt returns to where the program was executed |
| CallLaws.FirstCallOfShell | mp3_group_59/student-distrib/syscall.c:225-242 | the base shell, when it has halted, starts again with the same descriptors, whatever it had open |
| CallLaws.TerminalStays | mp3_group_59/student-distrib/syscall.c:502-560 | over any run of calls on descriptors a program keeps the terminal on 0 and 1 |
| CallLaws.AfterOpen | mp3_group_59/student-distrib/syscall.c:440-560 | on the descriptor that open gave, by the type of the entry: a file gives its first n bytes, a directory the name of its first entry, the clock its answer and no bytes; only the clock can be written to; close answers 0 |
| CallLaws.AfterClose | mp3_group_59/student-distrib/syscall.c:502-560 | a closed descriptor answers -1 to read, write and close, and it or a lower one is the next to be given out |
| CallLaws.OpenedFile | mp3_group_59/student-distrib/filesystem.c:260-272 | whatever other calls on descriptors come between, what is read from a file since it was opened is its beginning: as many bytes as were asked for in all, or the whole file |
| CallLaws.OpenedDirectory | mp3_group_59/student-distrib/filesystem.c:166-199 | likewise the m-th read of a directory gives its m-th name and the number of its letters, also the one past the last entry, and -1 after that |
| KernelModule.Kernel.AssignPID | mp3_group_59/student-distrib/syscall.c:629-638 | the first unused process block, or the error value |
| KernelModule.Kernel.FindProgram | mp3_group_59/student-distrib/syscall.c:158-190 | finds the program exactly when the name denotes a file that starts with the magic bytes |
| KernelModule.Kernel.SystemExecute | mp3_group_59/student-distrib/syscall.c:106-295 | enters the program exactly when it can be loaded, fits in its page and a block is free; the page then holds the whole file and the state is the specified one; faults exactly when it does not fit |
| KernelModule.Kernel.Load | mp3_group_59/student-distrib/syscall.c:215-223 | the copy is whole when the file fits in the page, and reaches the end of the page when it does not |
| KernelModule.Kernel.FreshTable | mp3_group_59/student-distrib/syscall.c:225-242 | a new process has the terminal on 0 and 1 and nothing else open |
| KernelModule.Kernel.SystemHalt | mp3_group_59/student-distrib/syscall.c:319-429 | returns the saved registers and the status (255 as 256) to the parent, or restarts the base shell; when that fails the state is the one at that moment |
| KernelModule.Kernel.SystemOpen | mp3_group_59/student-distrib/syscall.c:440-494 | opens the denoted file on the lowest unused descriptor from 2, or fails with nothing changed, exactly when there is none |
| KernelModule.Kernel.SystemClose | mp3_group_59/student-distrib/syscall.c:502-514 | closes an open descriptor other than 0 and 1, and fails on any other with nothing changed |
| KernelModule.Kernel.FileRead | mp3_group_59/student-distrib/filesystem.c:260-272 | stores the next bytes of the file, moves the position past them, and leaves the rest of the buffer alone |
| KernelModule.Kernel.DirectoryRead | mp3_group_59/student-distrib/filesystem.c:166-199 | stores the name of the entry at the position and moves on by one, up to and including the index of the entry count; else -1 with nothing changed |
| KernelModule.Kernel.ListDirectory | mp3_group_59/student-distrib/filesystem.c:166-199 | a directory read n times stores the names of the listing from its position on |
| FileSystem.ListingIff | mp3_group_59/student-distrib/filesystem.c:37-40 | from the start, n reads list the first entries and nothing else if and only if n is at most the number of entries |
| ProcessState.OneNameTooMany | mp3_group_59/student-distrib/filesystem.c:37-40 | a directory with one entry that lists two names |
| KernelModule.Kernel.ReadInPieces | mp3_group_59/student-distrib/filesystem.c:260-272 | any sequence of positive-size reads yields consecutive slices that together are the next bytes of the file |
| KernelModule.Kernel.SystemRead | mp3_group_59/student-distrib/syscall.c:525-538 | returns, stores and moves what the descriptor's table says; -1 on a missing buffer, a bad or a closed descriptor; the rest of the buffer is untouched |
| SystemCalls.ReadStaysWithinIff | mp3_group_59/student-distrib/filesystem.c:176-183 | a read keeps to the size asked for if and only if it reads a file, or no entry is left, or the size is 32 or more |
| KernelModule.Kernel.ServeDescriptor | mp3_group_59/student-distrib/syscall.c:440-560 | open, close, read and write answer and leave the table as specified, and change nothing else |
| SystemCalls.RanLast | mp3_group_59/student-distrib/syscall.c:106-560 | the last call of a run does and answers what it should in the state that the others leave |
| SystemCalls.ProgramRoundTrip | mp3_group_59/student-distrib/syscall.c:106-429 | of any run that begins with executing a program and ends with its halt: process number and block, kernel stack, program page and the blocks of all processes before, descriptor tables included, are as they were, and the halt returns through the registers saved by the execute |
| KernelModule.Kernel.Serve | mp3_group_59/student-distrib/syscall.c:106-560 | for any system calls, every call does and answers what is specified, and the machine is where they bring it, until one of them faults or the base shell cannot be restarted |
| KernelModule.Kernel.ServeProgram | mp3_group_59/student-distrib/syscall.c:106-560 | when a program has been executed, has made any calls, and has halted, its parent's state and descriptor table are as before |
| KernelModule.Kernel.SystemWrite | mp3_group_59/student-distrib/syscall.c:548-560 | dispatches by the descriptor; a closed one yields -1 |
| FileSystem.Disk.ContentsByte | mp3_group_59/student-distrib/filesystem.c:111-150 | byte i of a file is byte i mod 4096 of its block i / 4096 |
| FileSystem.ReadCountIff | mp3_group_59/student-distrib/filesystem.c:96-154 | the number of bytes read is min(length, bytes left) if and only if the end of the request does not wrap or nothing is left |
| FileSystem.ReadCountWraps | mp3_group_59/student-distrib/filesystem.c:96-154 | a request for which the end wraps and nothing is read |
| FileSystem.ReadData | mp3_group_59/student-distrib/filesystem.c:96-154 | the bytes returned are that slice of the file, and the rest of the caller's buffer is untouched |
| FileSystem.StrncmpIsZero | mp3_group_59/student-distrib/lib.c:500-514 | zero exactly when the names agree up to a terminator or 32 characters |
| FileSystem.SameNameIff | mp3_group_59/student-distrib/lib.c:500-514 | two names agree exactly when they are equal character by character up to a zero in both, or for 32 characters |
| FileSystem.Strncpy | mp3_group_59/student-distrib/lib.c:537-548 | stores the letters of a name with zeros after them, 32 bytes in all |
| FileSystem.ReadDentryByName | mp3_group_59/student-distrib/filesystem.c:68-83 | the first directory entry with the name, or -1 exactly when there is none |
| FileSystem.ReadsAreConsecutive | mp3_group_59/student-distrib/filesystem.c:260-272 | a sequence of positive-size reads concatenates to a stretch of the file of the total size, or to its end |
| BlinkSpec.Find | mp1_rthakk21/mp1.S:529-586 | the first element with the location, or none exactly when it is not listed |
| BlinkSpec.TickKeeps | mp1_rthakk21/mp1.S:53-126 | a timer tick keeps list and screen in agreement, locations legal and distinct, and every status 0 or 1 |
| BlinkSpec.AddShowsIff | mp1_rthakk21/mp1.S:160-254 | right after an add the two agree if and only if all listed elements at that location show the new character |
| BlinkSpec.AddKeeps | mp1_rthakk21/mp1.S:160-254 | an add of an unlisted location keeps the agreement |
| BlinkSpec.AddTwice | mp1_rthakk21/mp1.S:160-254 | an add of a listed location after which the two disagree |
| BlinkSpec.AddThenTick | mp1_rthakk21/mp1.S:53-254 | an add of a listed location after which the two agree, but no longer after a tick |
| BlinkTwice.SteadyRun | mp1_rthakk21/mp1.S:53-586 | elements at one location that always show the same character agree with the screen over every run |
| BlinkTwice.ComesTo | mp1_rthakk21/mp1.S:53-126 | every element comes to either status after one tick or more |
| BlinkTwice.BringApart | mp1_rthakk21/mp1.S:53-586 | two elements at one location with different characters can be brought to disagree |
| BlinkTwice.DuplicateSafeIff | mp1_rthakk21/mp1.S:53-586 | when a listed location is added again, list and screen agree over every run that follows if and only if the two elements have the same character for both states |
| BlinkSpec.RemoveKeeps | mp1_rthakk21/mp1.S:264-305 | a removal keeps the agreement and the order of the others, and the location is no longer listed |
| BlinkSpec.SyncKeeps | mp1_rthakk21/mp1.S:414-520 | a sync keeps the agreement and copies timing and status only |
| BlinkSpec.RunAgrees | mp1_rthakk21/mp1.S:53-586 | over every run of requests that add unlisted locations, list and screen agree |
| BlinkCycle.Stays | mp1_rthakk21/mp1.S:53-107 | a character stays as many ticks as the countdown says, and then the other one starts with its own length; 0 counts as 65536 |
| BlinkCycle.BlinkCycle | mp1_rthakk21/mp1.S:53-107 | a new element is on at tick n exactly when n modulo the sum of both lengths is below the on length |
| BlinkCycle.BlinksOnScreen | mp1_rthakk21/mp1.S:53-254 | after an add and any requests that leave the location alone, the screen shows the on character exactly in the on part of the cycle, and else the off character |
| BlinkCycle.SyncedOnScreen | mp1_rthakk21/mp1.S:414-520 | after a sync and any requests that leave both locations alone, both show their on characters or both their off characters, as the first would have done anyway |
| BlinkListModule.BlinkList.Traverse | mp1_rthakk21/mp1.S:529-586 | finds the first node with the location and, if asked to, unlinks exactly that one and keeps the order of the rest |
| BlinkListModule.BlinkList.Add | mp1_rthakk21/mp1.S:160-254 | a new node in front and its character on the screen, or -1 with nothing changed |
| BlinkListModule.BlinkList.Remove | mp1_rthakk21/mp1.S:264-305 | the first match is removed, -1 exactly when the location is illegal or not listed; the screen is untouched |
| BlinkListModule.BlinkList.Sync | mp1_rthakk21/mp1.S:414-520 | the second element takes the timing and status of the first and shows it, or -1 with nothing changed |
| BlinkListModule.BlinkList.Tasklet | mp1_rthakk21/mp1.S:53-126 | every element is ticked once and the list keeps its nodes; the exit for a bad status is not reached |

## Left out

- Random numbers: the worms use a finite sequence of draws, and a run is cut when it is used up before the last worm has turned back; that worms end with probability one is not stated. The rejection loops choose any point that meets their exit condition.
- MazeModule.Maze.MakeMaze: for a legal size, needs fewer fruits than nodes (every level asks for that); with as many, finding an unfruited exit never ends in the original, and with more, placing them does not.
- Timed fruit (`add_a_fruit` with drawing), the status bar, `text.c`, `input.c` and `tuxctl-ioctl.c`: not part of this model.
- The pictures in `blocks.s` are a parameter; no property depends on what they look like.
- VGA registers, palettes, fonts and port input and output: hardware effects.
- DisplayModule.Display.CopyImage: of the rows that are not displayed, the bytes that would come from behind the end of the build buffer are arbitrary.
- Threads, locks and signals of the game: each tick gets one arbitrary direction; the read of the open directions past their end, when no direction is asked for, is an arbitrary Boolean.
- GameModule.Game.PlayGame: quitting and the clock are the end of the inputs.
- The start-up and shutdown of the line discipline, its locks and its null checks, and what the driver does with bytes beyond its room: not modelled.
- The page fault handler, beyond the halt it makes; `KernelModule.Kernel.Serve` ends at a fault.
- Splitting a command into name and arguments with its null and length checks, the entry address, the switch to user mode and back, and the file-scope parent pid: not modelled; names and arguments are inputs.
- KernelModule.Kernel.SystemHalt: when the base shell halts and cannot be started again, what the original does after that moment is not modelled.
- KernelModule.Kernel.SystemRead: what the terminal and the clock answer and store is a parameter, and so is the memory behind the directory. For a directory, memory reaches 32 bytes from the buffer on; what a shorter buffer is followed by is not modelled.
- KernelModule.Kernel.DirectoryRead: the same.
- KernelModule.Kernel.FileRead: sizes below 2^31, as the C type has it; positions are never negative, so signed and unsigned comparisons agree.
- KernelModule.Kernel.constructor: process blocks start zeroed, which `assign_PID` relies on.
- `getargs`, `vidmap`, the terminal, the real-time clock, the keyboard, interrupt and page tables: not modelled.
- FileSystem.Disk.Valid: images have at least one inode, and the directory and block numbers of files are in range.
- `mp1_ioctl_find` and the allocator of the blink list: allocation and copying from the user are flags that say whether they succeed.
