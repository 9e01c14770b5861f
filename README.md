# Procedural dungeon generator, modelled in Dafny

The repository is a pygame demo that generates a dungeon in several steps:

1. It scatters rectangular rooms near the centre of the screen.
2. It pushes colliding rooms apart until no two overlap (`spreadOutRooms`).
3. It centres the layout and picks the large rooms as *main rooms* (`pickMainRooms`).
4. It fills the gaps with 1x1 *void* rooms (`inFillWithVoids`).
5. It links every main room to its nearest main rooms (`findMainRoomNeighbors`).
6. It turns into *halls* the voids that lie along each link (`connectHallsToRooms`).

A generic state machine (`StateMachine.py`) steps through seven game modes (`Generate.py`), one per stage.

This project models the room layout, the state machine and the mode transition table, and proves what each operation promises.

- **Module and file layout.**

| module | file | contents |
|---|---|---|
| `Geometry` | geometry.dfy | integer rectangles; rounding onto the grid; the shrunk-rectangle collision test |
| `Neighbours` | neighbours.dfy | the distance-keyed table built by `pickClosestNeighbors` |
| `Rooms` | rooms.dfy | the `Room` class; the collision callbacks |
| `Separation` | separation.dfy | the separation loop, as functions |
| `Corridors` | corridors.dfy | corridor carving, as functions |
| `Tiling` | tiling.dfy | the void tiling |
| `Classify` | classify.dfy | the main-room size test |
| `Dungeons` | dungeon.dfy | the `Dungeon` class, whose methods are proved to follow those functions |
| `StateMachines` | statemachine.dfy | the generic state machine |
| `Generate` | generate.dfy | the game modes |

- **State kept in place.**
  - `Room` and `Dungeon` are classes whose fields the methods update in place.
  - The sprite group of the dungeon is the field `rooms: seq<Room>`.
  - The state machine's dict is `states: map<string, State>`.
- **Pixels and grid.**
  - All coordinates are integers.
  - A room `w` grid units wide is `(spacing+1)*w+1` pixels wide.
  - Rounding onto the grid is `roundm`: the least multiple of `spacing+1` that is at least the value.
- **Collisions.** Two rooms collide when each rectangle, shrunk by one pixel on every side, overlaps the other. A room never collides with itself.
- **Facts assumed about pygame.** Pygame is not part of this model. Its behaviour is assumed, and written out explicitly in `Geometry`:
  - `Rect.inflate` moves the origin by minus half the amount, truncated toward zero.
  - `center` is `(x + w/2, y + h/2)`, also truncated.
  - `colliderect` treats a zero-size rectangle as colliding with nothing, and uses the normalised intervals.
  - `unionall` is the bounding box of all the rectangles.
- **Randomness becomes parameters.**
  - `addRandomRoom`'s draws are the arguments of `AddRoom`.
  - The jitter of `repulse` is a `Jitter` value of two integers in [-10, 10].
  - In `spreadOutRooms` the jitter is a function `jit(pass, i, j)`.
- **Hooks become a log.** The state machine records every hook call (`stateAction`, `checkConditions`, `enterAction`, `exitAction`) in a `log`. The result of `checkConditions` is a parameter.

## Model

| member | source | states |
|---|---|---|
| `Geometry.TruncHalf` | Dungeon.py:30-31 | half of a signed inflate amount truncated toward zero, for both signs |
| `Geometry.Union` | Dungeon.py:300 | the union's origin is the smaller origin and its far edges are the larger far edges |
| `Geometry.UnionAll` | Dungeon.py:300 | `unionall` contains every rectangle, and each of its four edges is an edge of one of them: the bounding box |
| `Geometry.Roundm` | Dungeon.py:11-16 | `roundm(n, m)` is a multiple of m within `[n, n+m)` |
| `Geometry.RoundmIsLeast` | Dungeon.py:11-16 | no multiple of m that is at least n lies below `roundm(n, m)` |
| `Geometry.RoundmOfMultiple` | Dungeon.py:11-16 | a multiple of m is left unchanged |
| `Geometry.RoundmIdempotent` | Dungeon.py:11-16 | rounding twice gives the same as rounding once |
| `Geometry.RoundmShift` | Dungeon.py:11-16 | rounding commutes with a shift by a multiple of m |
| `Geometry.MultipleInWindowUnique` | Dungeon.py:11-16 | a window of width m holds at most one multiple of m |
| `Geometry.SnapXY` | Dungeon.py:162-166 | `snapToGrid`: the origin moves onto the grid, by less than one grid step right and down, and the size is unchanged |
| `Geometry.SnapXYFixesGrid` | Dungeon.py:162-166 | snapping is idempotent and fixes a rectangle already on the grid |
| `Geometry.SnapRectToGrid` | Dungeon.py:55-60 | `snap_rect_to_grid`: each of the four fields becomes the least grid multiple not below it |
| `Geometry.SnapRectToGridIdempotent` | Dungeon.py:55-60 | snapping a whole rectangle twice gives the same as once |
| `Geometry.ShrunkCollideSymmetric` | Dungeon.py:30-36 | the shrunk-rectangle test of `collide_rooms` is symmetric |
| `Geometry.SeparatedInX` | Dungeon.py:30-36 | rooms at least two pixels wide whose x ranges overlap by at most one pixel do not collide |
| `Geometry.SeparatedInY` | Dungeon.py:30-36 | the same along y |
| `Geometry.GridNeighboursDoNotCollide` | Dungeon.py:46-47 | a room followed edge to edge, one grid step apart as `gridToScreen` sizes it, by another room does not collide with it |
| `Geometry.GridNeighboursDoNotCollideVertically` | Dungeon.py:46-47 | the same for a room directly below another one |
| `Geometry.TranslatePreservesCollide` | Dungeon.py:327-332 | moving two rooms by the same offset does not change whether they collide |
| `Geometry.TranslateAll` | Dungeon.py:330-332 | every rectangle is moved by the offset, in order |
| `Geometry.UnionAllTranslate` | Dungeon.py:296-303 | the bound of a moved layout is the moved bound |
| `Geometry.TranslateCenter` | Dungeon.py:327-332 | moving a rectangle moves its centre by the same offset |
| `Geometry.Centerbox` | Dungeon.py:145-150 | `centerbox` has non-negative size and spans exactly from one room's origin to the other's |
| `Geometry.Dist2` | Dungeon.py:153-154 | the distance key is non-negative, and zero exactly when the two centres coincide |
| `Geometry.Dist2Symmetric` | Dungeon.py:153-154 | the distance from a to b is the distance from b to a |
| `Neighbours.EmptyHood` | Dungeon.py:188 | the empty neighbourhood table meets the table invariant |
| `Neighbours.SkipCandidate` | Dungeon.py:189-191 | skipping a bad candidate, or one whose distance is taken, keeps the invariant, since `setdefault` keeps the first |
| `Neighbours.InsertCandidate` | Dungeon.py:189-191 | inserting a good candidate with a new distance at its sorted place keeps the invariant |
| `Neighbours.TakeNearest` | Dungeon.py:193 | every good candidate shares a distance with one of the first `limit` entries, or is farther than all of them |
| `Rooms.Room.constructor` | Dungeon.py:77-100 | rect sized by `gridToScreen`, origin snapped onto the grid, at rest, Void, no neighbours |
| `Rooms.Room.SnapToGrid` | Dungeon.py:162-166 | the rect becomes its snapped rect |
| `Rooms.Room.Move` | Dungeon.py:203-205 | the rect moves by the velocity |
| `Rooms.Room.Update` | Dungeon.py:199-201 | move, then snap: the room ends on the grid |
| `Rooms.Room.Repulse` | Dungeon.py:207-211 | the velocity grows by the offset from the other room plus the jitter |
| `Rooms.Room.PickClosestNeighbors` | Dungeon.py:175-197 | the old list (or `[]` on reset) is extended by the described pick, and the result is the list |
| `Rooms.Room.AppendClosest` | Dungeon.py:193-195 | the list becomes the base followed by the pick; a list without self and repeats stays so |
| `Rooms.Room.ClosestGood` | Dungeon.py:188-193 | at most `limit` good candidates, in strictly increasing distance, earliest on ties, the nearest ones |
| `Rooms.Room.Neighborhood` | Dungeon.py:188-191 | the loop builds the distance table over all candidates |
| `Rooms.Room.AddCandidate` | Dungeon.py:189-191 | one step of the table loop keeps the table invariant |
| `Rooms.Room.FindSlot` | Dungeon.py:193 | the sorted position of a distance in the table |
| `Rooms.DistMap` | Dungeon.py:153-154 | every candidate is keyed by its distance to the room |
| `Rooms.PickFromHood` | Dungeon.py:193 | the first `limit` entries of the sorted table are the described pick |
| `Rooms.AppendPick` | Dungeon.py:195 | `extend` keeps the old list as a prefix; its suffix is the pick; no self or repeats |
| `Rooms.PickedAppend` | Dungeon.py:195 | the state after `extend` satisfies `Picked` |
| `Rooms.CollideRoomsIrreflexiveSymmetric` | Dungeon.py:25-36 | `collide_rooms` is false for a room with itself and symmetric otherwise |
| `Rooms.CollideAndScatterRooms` | Dungeon.py:38-44 | returns `collide_rooms`; on a hit the right room is repulsed, otherwise its velocity becomes zero; left is untouched |
| `Separation.UpdateAll` | Dungeon.py:199-201 | every room moves by its velocity and snaps onto the grid |
| `Separation.StopAll` | Dungeon.py:419-422 | every velocity becomes zero and every origin is snapped |
| `Separation.ScatterRow` | Dungeon.py:434-435 | one `spritecollide` call: every room is tested against room i and pushed or stopped |
| `Separation.SweepFacts` | Dungeon.py:432-440 | a sweep moves no rectangle; a sweep without a hit leaves the layout collision-free and at rest |
| `Separation.StepOnGrid` | Dungeon.py:429-440 | after a pass every room is on the grid |
| `Separation.SpreadSettles` | Dungeon.py:424-447 | when `spreadOutRooms` returns True, no two rooms collide, all are on the grid and at rest |
| `Separation.StopKeepsPositions` | Dungeon.py:419-422 | `stopRooms` moves no room that is already on the grid |
| `Separation.SpreadWithSurface` | Dungeon.py:442-444 | with a surface, exactly one pass, returning whether it found no collision |
| `Separation.SettledIsFixedPoint` | Dungeon.py:424-447 | a settled layout is returned unchanged, with True |
| `Separation.SweepStops` | Dungeon.py:432-440 | a sweep over a settled layout changes nothing and finds no hit |
| `Corridors.CarveEdge` | Dungeon.py:380-397 | one edge turns into halls exactly the void rooms hit by the outer probe, except 1x1 rooms also hit by the inner one |
| `Corridors.CarveAllOutcome` | Dungeon.py:377-397 | after all edges, a room is a hall exactly when it was void and some edge carves it; rects are unchanged |
| `Corridors.CarveOnlyVoidsToHalls` | Dungeon.py:394-397 | carving changes only void rooms, and only into halls |
| `Corridors.CarveIdempotent` | Dungeon.py:373-397 | carving the same edges again changes nothing |
| `Tiling.Range` | Dungeon.py:410-411 | `range(start, stop, step)`: every element is `start+k*step` below stop, and the range stops at the first value at or beyond stop |
| `Tiling.Tile` | Dungeon.py:412 | a candidate void is one grid unit in size and on the grid |
| `Tiling.Column` | Dungeon.py:411-413 | the inner loop makes one tile per y, in order |
| `Tiling.Keep` | Dungeon.py:415 | `groupcollide(..., True, ...)` keeps exactly the tiles colliding with no existing room |
| `Tiling.TilesApart` | Dungeon.py:406-413 | no two candidate voids collide |
| `Tiling.KeepApart` | Dungeon.py:415 | the kept voids still collide pairwise with none, and each is a candidate |
| `Tiling.VoidsFit` | Dungeon.py:401-417 | the added voids are 1x1, on the grid, pairwise apart and apart from every existing room |
| `Tiling.KeepAppend` | Dungeon.py:415 | the kept tiles are filtered one tile at a time, in order |
| `Classify.MainFlags` | Dungeon.py:357-364 | a room is main exactly when its width and height reach ratio times the average |
| `Classify.MinWidthBelowAverage` | Dungeon.py:357 | some room is at most as wide as the average |
| `Classify.RatioAboveOneLeavesAVoid` | Dungeon.py:352-364 | with a ratio above one, some room is not a main room |
| `Classify.HigherRatioFewerMains` | Dungeon.py:357-364 | raising the ratio can only turn main rooms into voids |
| `Dungeons.Dungeon.constructor` | Dungeon.py:270-285 | the sizes are stored, the rect is the screen, and there are no rooms |
| `Dungeons.Dungeon.AddRoom` | Dungeon.py:334-350 | one new Void room, made by `Room(x, y, w, h)`, is appended; the others stay |
| `Dungeons.Dungeon.Bound` | Dungeon.py:296-303 | the bound is None exactly when there are no rooms, and otherwise the union of the rects |
| `Dungeons.BoundOf` | Dungeon.py:296-303 | the union contains every rect, and each of its four edges is attained by some rect |
| `Dungeons.Dungeon.SetRoomType` | Dungeon.py:321-325 | the room's layer becomes the given one |
| `Dungeons.Dungeon.CenterIn` | Dungeon.py:327-332 | every room moves by one offset, after which the centre of the bound is the centre of target |
| `Dungeons.CenteredLayoutIsCentred` | Dungeon.py:327-332 | the moved layout's bound has the target's centre |
| `Dungeons.BoundOfTranslate` | Dungeon.py:328-332 | moving every room moves the bound by the same offset |
| `Dungeons.TranslateAllCollide` | Dungeon.py:330-332 | centring changes no collision between rooms |
| `Dungeons.Dungeon.Shift` | Dungeon.py:330-332 | every room is moved by the offset |
| `Dungeons.Dungeon.RoomsIn` | Dungeon.py:309-311 | exactly the rooms of the layer |
| `Dungeons.InLayer` | Dungeon.py:309-311 | the filter holds exactly the rooms of the layer |
| `Dungeons.InLayerDistinct` | Dungeon.py:309-311 | a layer of distinct rooms lists no room twice |
| `Dungeons.Dungeon.SumSizes` | Dungeon.py:357-358 | the sums of the widths and the heights |
| `Dungeons.Dungeon.PickMainRooms` | Dungeon.py:352-366 | every room is tagged main or void by the size test; the result is the main layer |
| `Dungeons.Dungeon.TagRoom` | Dungeon.py:360-364 | one room is tagged and the earlier tags are kept |
| `Dungeons.Dungeon.TagBySize` | Dungeon.py:361-364 | the room is main iff both sizes reach the thresholds |
| `Dungeons.Dungeon.FindMainRoomNeighbors` | Dungeon.py:368-371 | every main room's old list is extended by its pick among the main rooms; other rooms are unchanged |
| `Dungeons.Dungeon.PickAll` | Dungeon.py:370-371 | the loop over the main rooms, one pick each |
| `Dungeons.PickOne` | Dungeon.py:371 | one pick leaves the other rooms' lists alone |
| `Dungeons.Dungeon.StopRooms` | Dungeon.py:419-422 | the rooms after `stopRooms` |
| `Dungeons.Dungeon.UpdateRooms` | Dungeon.py:430 | the rooms after `rooms.update` |
| `Dungeons.Dungeon.CollideRow` | Dungeon.py:434-435 | one `spritecollide` row, and whether it hit |
| `Dungeons.Dungeon.ScatterStep` | Dungeon.py:434-435 | one room of the row is pushed or stopped |
| `Dungeons.Dungeon.SweepRooms` | Dungeon.py:432-440 | the `for room in rooms` sweep, stopping at the first hit |
| `Dungeons.Dungeon.SpreadPass` | Dungeon.py:430-440 | one pass of the loop |
| `Dungeons.Dungeon.SpreadLoop` | Dungeon.py:429-447 | the whole `while not done` loop and its return value |
| `Dungeons.Dungeon.SpreadOutRooms` | Dungeon.py:424-447 | after True, no two rooms collide and every room is at rest on the grid |
| `Dungeons.SettledRooms` | Dungeon.py:446-447 | a separated layout has no colliding pair of rooms |
| `Dungeons.Dungeon.InFillWithVoids` | Dungeon.py:401-417 | the old rooms are kept as a prefix; the suffix is the free tiles of the bounds, one new void per tile |
| `Dungeons.NewVoids` | Dungeon.py:406-415 | the candidate voids that survive `groupcollide`, all new |
| `Dungeons.MakeTiles` | Dungeon.py:410-413 | one new 1x1 void per tile, x-major |
| `Dungeons.MakeColumns` | Dungeon.py:410-413 | the outer loop over x |
| `Dungeons.MakeColumn` | Dungeon.py:411-413 | the inner loop over y |
| `Dungeons.Survivors` | Dungeon.py:415 | the voids that collide with no existing room, in order |
| `Dungeons.KeepRoomsRects` | Dungeon.py:415 | the survivors' rects are the free tiles |
| `Dungeons.KeepRoomsFrom` | Dungeon.py:415 | the survivors are distinct and among the candidates |
| `Dungeons.CollidesWithAny` | Dungeon.py:415 | whether a void collides with some existing room |
| `Dungeons.Dungeon.ConnectHallsToRooms` | Dungeon.py:373-398 | the layers become the carving of all main-room edges; only voids change, into halls |
| `Dungeons.Dungeon.ConnectAll` | Dungeon.py:377-378 | the loop over the main rooms carves their edges in order |
| `Dungeons.Dungeon.ConnectRoom` | Dungeon.py:378-398 | the loop over one room's neighbours |
| `Dungeons.Dungeon.CarveEdgeRooms` | Dungeon.py:380-398 | one edge carved on the rooms |
| `Dungeons.Dungeon.CarveStep` | Dungeon.py:394-398 | one room of `outers` is turned into a hall unless skipped |
| `Dungeons.Dungeon.VoidsHit` | Dungeon.py:385-392 | `spritecollide(..., collide_with_voids)` returns exactly the void rooms the probe hits |
| `StateMachines.FirstBinding` | StateMachine.py:24-25 | `setdefault`: a new key is bound, an existing binding is kept, and nothing else changes |
| `StateMachines.FirstBindingWins` | Generate.py:29-34 | binding a key a second time changes nothing |
| `StateMachines.State.constructor` | StateMachine.py:3-5 | the state has that name |
| `StateMachines.SwitchHooks` | StateMachine.py:27-35 | exit when there is a current state and exit is asked for; enter when the lookup succeeds and enter is asked for; each at most once, and exit before enter |
| `StateMachines.ThinkHooks` | StateMachine.py:37-46 | without a current state no hooks; otherwise stateAction, checkConditions, then the switch hooks |
| `StateMachines.StateMachine.constructor` | StateMachine.py:19-22 | no states and no current state |
| `StateMachines.StateMachine.Add` | StateMachine.py:24-25 | a state is registered under its name unless the name is taken |
| `StateMachines.StateMachine.SetStateByName` | StateMachine.py:27-35 | the exit hook runs before the lookup; an unknown name fails and keeps the current state |
| `StateMachines.StateMachine.Think` | StateMachine.py:37-46 | the hooks called and the successor state; fails only on an unknown returned name |
| `Generate.ModeNamed` | Generate.py:207-215 | each registered name, and no other string, names exactly one mode |
| `Generate.Rank` | Generate.py:207-213 | the position of each mode in the registration order |
| `Generate.Decide` | Generate.py:79-191 | a reset always goes back to Initialization; otherwise a mode stays or steps to the next, with the exact waiting conditions |
| `Generate.AddsRoomWhenStaying` | Generate.py:88-94 | AddRoomsMode adds a room exactly when it stays |
| `Generate.LocateHallwaysIsFinal` | Generate.py:189-191 | LocateHallwaysMode is left only on a reset |
| `Generate.RunNeverGoesBack` | Generate.py:79-191 | without resets the mode never moves back along the pipeline |
| `Generate.EagerRunProgresses` | Generate.py:79-191 | with no waiting condition, each think advances one mode until the last |
| `Generate.GameMode.constructor` | Generate.py:10-21 | the bindings for Quit, Escape, Space and r, with both flags cleared |
| `Generate.GameMode.AddEvent` | Generate.py:29-31 | the first action bound to an event name is kept |
| `Generate.GameMode.AddControl` | Generate.py:33-34 | the first action bound to a key is kept |
| `Generate.GameMode.HandleSpacebarPressed` | Generate.py:23-24 | the spacebar flag is set |
| `Generate.GameMode.RequestReset` | Generate.py:26-27 | the reset flag is set |
| `Generate.GameMode.EnterAction` | Generate.py:50-52 | both flags are cleared |
| `Generate.GameMode.CheckConditions` | Generate.py:79-191 | a reset names InitializationMode; a returned name is the name of the mode `Decide` moves to; None exactly when the mode waits |
| `Generate.NewGame` | Generate.py:196-215 | the seven modes are registered, and InitializationMode is current and has been entered once |

## Left out

- Drawing is not modelled: `render`, `draw`, colours, the font, surfaces, lines and `pygame.display`. None of it changes the layout.
- Randomness is not modelled. `addRandomRoom`'s width, height, angle and radius draws become the arguments of `AddRoom`, and `random.randint` in `repulse` becomes a `Jitter` argument.
- `Dungeon.generate` is not modelled as one method. Its passes are the methods above, and `Generate.py` runs them in order.
- `slope`, `screenToGrid`, `containsX`, `containsY` and the `halls`/`voids` properties are not modelled; the core never calls them.
- `radius` is not modelled: it is read only to compute the argument of `addRandomRoom`, whose random placement is left out.
- Room ids are not modelled. `nextID` has no `return`, so every id is None, and ids are only printed by `__repr__`.
- `Room.fromRect` becomes the probe rectangle itself: the collision test reads nothing else of the probe room.
- `Classify.MainFlags`: the float pick ratio becomes a rational `num/den`, compared by cross-multiplying. This is exact where the float computation is exact.
- `Rooms.DistMap`: the key is the squared distance between the rects' centres. It has the same order and the same ties as the Euclidean distance the source compares, up to floating-point rounding. The source caches each room's centre in `vector` at the first read and never refreshes it. The model reads the centres from the rooms' current rects.
- `Dungeons.Dungeon.SpreadOutRooms`: the `while not done` loop may never end, so it gets a pass budget (`fuel`), and running out of it is the `OutOfFuel` outcome. The `time` argument is unused by the source and is dropped. The surface is a bool standing for its truthiness.
- `LayeredUpdates` keeps its members ordered by layer, and `change_layer` moves a room to the end of its new layer. The model keeps rooms in insertion order and only changes their tag.
  - For the Void and MainRoom layers the two orders agree: `pickMainRooms` re-inserts every room in group order, and `inFillWithVoids` appends its voids at the end.
  - For the Hall layer they differ: `connectHallsToRooms` appends each hall in carving order, which follows the main rooms, their neighbour lists and the probe hits. The model keeps halls in insertion order.
  - No modelled pass reads the order of the Hall layer, or the order across layers. The carving result and the per-room updates do not depend on either.
- The `width` and `height` parameters of `inFillWithVoids` are unused by the source and are dropped.
- `Dungeons.Dungeon.PickMainRooms` requires at least one room.
  - `Dungeons.Dungeon.CenterIn` also requires a room.
  - `Dungeons.Dungeon.InFillWithVoids` requires either bounds or a room.
  - Without these, the source divides by zero or reads a field of None.
- `Dungeons.Dungeon.CenterIn` moves the rooms without snapping them, as the source does. Its ensures does not claim that the rooms stay on the grid.
- `Dungeons.Dungeon.Valid` is a precondition of the dungeon methods. It says the room list holds no room twice and every room has the dungeon's grid spacing. The source keeps both facts through the sprite group and its constructor calls.
- Event handling is not modelled: `dispatch_events`, `dispatch_pressed`, the clock, `Game.draw` and `Game.run`. The flags the event handlers set are inputs of `Decide`.
- `Game.update` (Generate.py:226-228) runs `Dungeon.update`, which applies `Room.update` (move by the velocity, then snap) to every room. That operation is modelled as `Dungeons.Dungeon.UpdateRooms`. It is not interleaved between the passes as the default `stateAction` does on every frame. In particular, the frame of `IdentifyMainRoomsMode` re-snaps every room onto the grid after `centerIn` and before `inFillWithVoids`; the model does not chain these calls.
- `Rooms.Room.constructor` requires non-negative pixel sizes. The source's `pygame.Surface` raises on a negative size, and no modelled caller reaches that case: `AddRoom` passes sizes of at least one unit and the void tiles are 1x1.
- `MainRoomNeighborsMode`'s float `elapsed` is the bool `elapsedOver3`. `CollideRoomsMode`'s `done` is the value of the preceding `stateAction`.
- The mode-specific `enterAction` and `exitAction` bodies that call the dungeon are not wired into the machine; they are only called by name. These are the new dungeon, `centerIn`, `pickMainRooms`, `inFillWithVoids`, `findMainRoomNeighbors` and `connectHallsToRooms`. Each of those dungeon operations is modelled on its own.
- `sys.exit`, `print` and the display caption are not modelled. The hooks' effects are recorded as a log of hook calls.
- `Generate.GameMode.AddEvent`: the event is given by the name `pygame.event.event_name` would return. The name of the quit event is assumed to be "Quit".
- The key codes K_ESCAPE = 27, K_SPACE = 32 and K_r = 114 are assumed values of pygame's constants.
- The `KeyError` raised by `setStateByName` for an unknown name is `ok == false`, with the current state kept.
- `Rooms.Room.PickClosestNeighbors`: `limit` is a `nat`. A negative `limit`, for which Python's `[:limit]` drops entries from the end of the sorted table, is not modelled; every caller passes `maxEdges = 2`.
