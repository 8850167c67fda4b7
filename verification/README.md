# Minecraft scene: a Dafny model

This project models the core of the Minecraft demo scene in `src/main.cpp`: the
scene the program builds and the step it takes every frame of its main loop.

The scene (`minecraftScene`) is a floor of 101 x 101 cobblestone tiles at
height -1.5. After the tiles come Steve at (0, 0, 6), the pig at (0, 0, -6),
a sky node and the Creeper at the origin. The sky node's two children are the
sun and a cloud. The program keeps references to the Creeper, Steve, the pig
and the sun.

Each frame:

- the time of day advances and blends the ambient colour white -> dusk ->
  night -> white over three 30-second phases, then wraps;
- the sun sweeps from x = -30 to x = 30 and is then parked at x = 1000;
- W/S pitch the camera (clamped to 89 degrees) and A/D turn its yaw;
- the arrow keys walk the Creeper relative to the camera's flattened view
  direction, and the follow camera sits 5 units behind and 3 above it;
- Steve and then the pig flee one step, bouncing off the map's edges at
  -50 and 50;
- a prey within 0.8 of the Creeper is erased from the object list, its
  reference is cleared and the Creeper's reference is re-bound by name;
- the loop ends once both prey references are null.

Modules, one per file:

- `Wrappers` (`wrappers.dfy`): `Option`.
- `Vectors` (`vectors.dfy`): 3-vectors, `Mix`, `Radians`, and the `Math`
  parameter that supplies `normalize`, `atan2`, `cos` and `sin`.
- `SceneGraph` (`scene_graph.dfy`): nodes with ids and children. It has
  lookup by id and by name, the erase of one node, and the deep position
  update.
- `MinecraftScene` (`minecraft_scene.dfy`): the tile grid and the built scene.
- `DayCycle` (`day_cycle.dfy`): the time of day, the ambient colour, the sun.
- `Camera` (`camera.dfy`): yaw and pitch, the view direction, the follow
  camera and the initial heading.
- `Agents` (`agents.dfy`): the wall bounce and the flee step.
- `Frame` (`frame.dfy`): the frame state, the frame step, the loop's
  termination test and the invariant every frame keeps.
- `SlotReferences` (`slot_references.dfy`): the prey steps with references
  read as vector slots, as the program writes them (see Findings).

Floats are modelled as `real`. The transcendental functions are parameters.
Facts about them are assumed only where a member states them as a
precondition or as the hypothesis of an ensures. `KeepsFlat` says that
normalising a vector with a zero vertical part keeps it zero.
`Camera.Direction` assumes the Pythagorean identity at the yaw and the pitch.
`Camera.InitialYawFacesMinusZ` assumes the exact values
cos = 0 and sin = -1 at the start yaw, and cos = 1 and sin = 0 at pitch 0.
The first pair is an idealisation: the start yaw is -90 times a rounded
degree factor, so its true cosine is close to 0 but not exactly 0.

A reference is the id of the node it points to.
The program holds addresses, and this reading is what they are evidently meant
to be. `SlotReferences` models the same steps with the addresses read as
vector slots.

Four details of `src/main.cpp` that the model keeps as written:

- Wall bounce (lines 442-449): when the step would leave the map, the
  direction is reversed and line 449 applies the whole reversed step from
  where the agent stood, so it moves back by the full step instead of
  stopping at the wall. From x = 49.5 a step of +1 lands at 48.5.
  The comment at line 442 says the bounce "makes sure steve doesn't go off
  the map". That holds only for frames of at most 50 s; a longer frame can
  carry an agent off the map (`Agents.LongFrameLeavesMap`).
- Proximity removal (line 453): the 0.8 test is made after the prey's flee
  step, against its new position.
- Wrap of the day cycle (lines 353-355): when the time of day reaches 90 s,
  it restarts at 0 and that frame's colour is left as it was.
- Follow camera (lines 391 and 432): the camera is placed from the Creeper's
  position read before the arrow keys move it. The arrow keys walk along the
  view direction of the previous frame, because the direction is recomputed
  after the walk (lines 423-427).

## Model

| member | source | states |
|---|---|---|
| MinecraftScene.BuildTiles | src/main.cpp:198-209 | the tile loops create exactly 101 x 101 tiles, and the k-th one created is the tile of row k / 101 and column k % 101 |
| MinecraftScene.TileAtEveryCell | src/main.cpp:202-207 | every grid cell (x, z) in [-50, 50] x [-50, 50] has a tile, at (x, -1.5, z) |
| MinecraftScene.TileOnGrid | src/main.cpp:202-206 | every tile lies at height -1.5 on a whole-numbered cell inside [-50, 50] on both axes |
| MinecraftScene.TilesDistinct | src/main.cpp:202-207 | no two tiles occupy the same cell |
| MinecraftScene.BuildScene | src/main.cpp:192-253 | the scene is the tiles, then Steve at (0, 0, 6), the pig at (0, 0, -6), the sky with the sun at (-30, 40, -20) and the cloud at (-25, 42, -22) as its children, and the Creeper last at the origin; ids are unique; each reference names the right node, and the Creeper's is also what a search by name finds |
| DayCycle.Advance | src/main.cpp:339-355 | the time of day stays below 90 and advances by the frame time; once it reaches 90 it restarts at 0 and the colour is left as it was |
| DayCycle.AdvanceFollowsKeyframes | src/main.cpp:341-352 | without a wrap, the colour computed by the three phase branches equals the independent keyframe interpolation `AmbientAt` at the new time |
| DayCycle.AmbientAtBoundaries | src/main.cpp:341-352 | the cycle is white at 0 s, dusk at 30 s and night at 60 s |
| DayCycle.AmbientAtIsLinear | src/main.cpp:341-352 | within each 30-second phase the colour is the straight blend between that phase's two keyframes |
| DayCycle.AmbientAtInGamut | src/main.cpp:341-352 | every colour of the cycle has each component in [0.05, 1] |
| DayCycle.AdvanceKeepsCycle | src/main.cpp:339-355 | for a non-negative frame time, a time in [0, 90) and an in-gamut colour stay so |
| DayCycle.SunX | src/main.cpp:360-363 | the sun's x is the time of day minus 30 up to 60 s, and 1000 (parked) after that |
| DayCycle.SunVisibleFirstTwoPhases | src/main.cpp:360-363 | over one cycle the sun is inside [-30, 30] exactly during the first 60 seconds |
| Frame.PlaceSunPositions | src/main.cpp:358-367 | after the sun step, every node the sun reference names, at any depth, is at (x, 40, -20) with x from the sweep, and nothing else in the scene changed |
| Camera.Turn | src/main.cpp:373-388 | A and D change the yaw by exactly the key's angular step (180 degrees per second) with no limit; a pitch within 89 degrees stays within 89 degrees; without W or S the pitch is unchanged |
| Camera.TurnPitchOneKey | src/main.cpp:373-382 | with one pitch key held, the pitch moves by the key's step or stops on the limit, whichever comes first |
| Camera.FollowPosition | src/main.cpp:430-432 | the follow camera is exactly 3 units above its target, whatever the view direction |
| Frame.ArrowWalkKeepsHeight | src/main.cpp:390-420 | every arrow key walks the Creeper horizontally, so its height never changes |
| Frame.FollowCameraAboveCreeper | src/main.cpp:390-432 | after the Creeper's part of the frame the Creeper is still in the scene at its old height, and the camera is 3 units above it |
| Agents.Bounce | src/main.cpp:442-447 | an axis of the flee direction is reversed exactly when the proposed coordinate on that axis is off the map; magnitudes and the vertical part are kept |
| Agents.FleeKeepsAxis | src/main.cpp:440-450 | a flee along the x axis stays a unit x direction, and the agent keeps its height and depth |
| Agents.FleeStaysOnMap | src/main.cpp:440-449 | an agent on the map stays on the map after a step of at most 50 units per axis |
| Agents.LongFrameLeavesMap | src/main.cpp:440-449 | the bound is needed: after a 60-second frame an agent at the centre heading +x lands at x = -60, off the map |
| Frame.PreyStep | src/main.cpp:437-470 | the step is skipped unless both the Creeper and the prey are referenced; it never adds a node; a prey reference that survives is unchanged |
| Frame.ExplodesOnlyWithinRadius | src/main.cpp:437-470 | within 0.8 of the Creeper after its flee step, exactly the prey is erased: the others keep their order, the prey reference is cleared and the Creeper's is re-bound by name. Otherwise nothing is erased, the references are kept and only the prey moves, to its flee position |
| Frame.PreyStepKeepsOthers | src/main.cpp:456-468 | a prey step keeps every other node: a reference to any node but the prey, such as the other prey's, still names the same unchanged node |
| Frame.PreyStepCreeper | src/main.cpp:463-468 | after a prey step the Creeper reference again names a node called "Creeper" |
| Frame.PreyStepOwnRef | src/main.cpp:437-470 | the prey's own reference is cleared, or still names the prey, now at its flee position |
| Frame.PreyStepKeepsList | src/main.cpp:437-470 | a prey step keeps the list facts: unique ids, each reference naming a node of the right kind, and the two prey distinct |
| Frame.PreyStepStaysOnMap | src/main.cpp:440-450 | with a frame of at most 50 s, a prey on the map stays on the map |
| Frame.RemovedStaysRemoved | src/main.cpp:437-506 | a prey once removed stays removed, and no prey is removed while the Creeper reference is null |
| Frame.Tick | src/main.cpp:324-556 | one pass of the loop from a state of the invariant keeps the invariant, and the loop stops exactly when the window was closed or neither Steve's nor the pig's node is left in the scene |
| Frame.RunKeepsInv | src/main.cpp:312-558 | over any run of frames with non-negative lengths the invariant holds, and the loop stops only after a close request or once neither prey's node is in the scene |
| Frame.Play | src/main.cpp:192-558 | from the built scene, whenever the loop has stopped a close was requested or both Steve and the pig are gone from the scene |
| Frame.Step | src/main.cpp:339-506 | one frame advances the day and turns the camera by the keys, never moves the sun reference, never re-points a prey reference (it can only clear it), and never adds a node |
| Frame.Initial | src/main.cpp:255-276 | the loop starts from the built scene and its references, at time 0 in an in-gamut colour, with a level pitch, and with the two prey fleeing along opposite x directions |
| Frame.PlaceSun | src/main.cpp:358-367 | without a sun reference the sun step changes nothing; with one it changes only the object list and keeps its length |
| Frame.ArrowWalk | src/main.cpp:393-420 | with no arrow key held the Creeper stays put; with only Up held it moves dt * 2 along the normalised flattened view direction |
| Frame.Chase | src/main.cpp:390-433 | without a live Creeper reference nothing changes; otherwise the node ids and every reference are kept, the view direction is recomputed from yaw and pitch, and the camera follows the Creeper's position from before the walk |
| Frame.Relink | src/main.cpp:463-468 | the Creeper reference is re-bound to the first node named "Creeper", or kept when there is none |
| Frame.PreyStepClears | src/main.cpp:456-462 | a prey step that clears the prey's reference has erased the prey's node |
| Frame.PreyStepPins | src/main.cpp:456-468 | a prey reference is either the prey's id or null, and once null no node with that id is left; a prey step keeps this for both prey |
| Agents.Flee | src/main.cpp:440-450 | the flee step keeps the size of each component of the direction, flipping signs only, and moves the agent vertically by exactly its direction's vertical part times dt |
| SceneGraph.RemoveById | src/main.cpp:456-460 | erasing by identity leaves exactly the nodes whose id differs, so none with that id, and never lengthens the list |
| Camera.Direction | src/main.cpp:423-427 | whenever cosine and sine satisfy the Pythagorean identity at the yaw and the pitch, the direction's horizontal part has the pitch's cosine as length and the vector that line 427 normalises already has unit length |
| SlotReferences.PreyPartsBySlot | src/main.cpp:437-506 | on slot references, both prey steps remove at most two nodes and keep both lengths equal while both references survive; a surviving reference keeps its slot, and nothing changes while the Creeper reference is null |
| Frame.StepKeepsInv | src/main.cpp:339-506 | every frame with a non-negative frame time keeps the invariant; a frame of at most 50 s also keeps both prey on the map |
| Frame.Start | src/main.cpp:192-276 | the program's starting state satisfies the invariant, has all four references set and both prey on the map, and starts the day at 0 s in white |
| Camera.AsWrittenYawNotQuarterTurn | src/main.cpp:261 | the written start yaw -90, read as radians, is at least 0.46 radians (about 26 degrees) from -90 degrees plus any number of full turns, far more than rounding could explain |
| Camera.InitialYawFacesMinusZ | src/main.cpp:261 | started from -90 degrees and a level pitch, the view direction is exactly -Z for any cosine and sine taking the exact values of a quarter turn and of zero there (an idealisation, see above) |
| SlotReferences.SlotOfName | src/main.cpp:463-468 | the re-bind scan finds the first slot with the name, and finds none only when no slot has it |
| SlotReferences.PreyStepBySlot | src/main.cpp:437-470 | on slot references, an erase removes exactly the prey's slot and shifts every later slot down by one |
| SlotReferences.SlotStepErases | src/main.cpp:453-468 | a slot step whose prey lands within 0.8 of the Creeper erases that slot and re-binds only the Creeper |
| SlotReferences.SlotStepMoves | src/main.cpp:440-450 | a slot step whose prey stays out of reach moves the node in that slot and nothing else |
| SlotReferences.EraseShiftsPigSlot | src/main.cpp:456-462 | after Steve's slot s is erased, slot s holds the pig and slot s + 1, which the pig reference still holds, holds the node after it |
| SlotReferences.StalePigStepFreezesPig | src/main.cpp:473-489 | a pig step through the stale slot never touches the pig |
| SlotReferences.StaleStepEndsGame | src/main.cpp:491-498 | a pig step through the stale slot can erase the other node and clear the pig reference, leaving the pig in the scene |
| SlotReferences.CatchSteveBySlot | src/main.cpp:437-506 | as written: in the frame the Creeper catches Steve, the pig reference moves the sky, the pig stays still, and the loop goes on |
| SlotReferences.StaleGameOver | src/main.cpp:473-556 | as written: a later frame in which the Creeper reaches the node in the stale slot ends the game with the pig still in the scene |
| SlotReferences.CatchSteveById | src/main.cpp:437-506 | corrected: in the same frame only Steve is erased, and the pig flees on under its own reference while the sky stays put |
| SceneGraph.RemoveSplices | src/main.cpp:456-460 | with unique ids, erasing by identity removes exactly that node and keeps the others in order |
| SceneGraph.FindByName | src/main.cpp:463-468 | the search yields the id of the first node with the name, or nothing when no node has it |
| SceneGraph.SetPositionForestEffect | src/main.cpp:366 | setting a node's position through its reference moves every node with that id, at any depth, and changes nothing else |

## Left out

- Window, OpenGL context, shaders, textures, meshes, model importing, the
  perspective and view matrices, uniforms, rendering and the animators: these
  are I/O. Only the view direction and camera position feeding the view
  matrix are modelled.
- The other demo scenes in the file (`bunny`, `marbleSquare`, `cube`,
  `lifeOfPi`) and the shader helpers are not used by the Minecraft scene.
- The frame clock, the FPS print and the `Sleep(3)` before the loop stops:
  the frame time is a parameter of `Frame.Step`. The window's close event is
  the `closeRequested` parameter of `Frame.Tick`.
- Keyboard polling: the held keys are the `Keys` parameter.
- Floating-point rounding: arithmetic is exact on `real`. The explosion test
  compares squared distance with 0.64, which is equivalent to the program's
  length below 0.8 only on exact reals.
- `cos`, `sin`, `atan2` and `normalize` are parameters (`Vectors.Math`), not
  definitions.
- The importer's node names and the models' own transforms and meshes: an
  imported node starts with an identity transform and no name, except the
  Creeper, which the program names.
- The scale and orientation that `grow` and `setOrientation` set are carried
  but not reasoned about. So is the global `creeperYaw`, which only feeds the
  Creeper's orientation.
- Vector reallocation: the references taken while the scene is built are
  modelled as staying valid. The model assumes the four appends after the
  tiles do not reallocate the object vector. This is not guaranteed by the
  language.
- The camera's `cameraSpeed` and `firstObject` are declared but never used
  in the loop.
- Frame.Initial: starts from the corrected yaw of -90 degrees, not the
  written -90 radians (see Findings).
- Frame.PreyStep: a reference that no longer names a node is skipped, where
  the program would dereference a dangling pointer. Under `Frame.Inv` no
  reference dangles.
- Frame.Chase: likewise, a Creeper reference that no longer names a node is
  skipped, where the program would dereference a dangling pointer. Under
  `Frame.Inv` the Creeper reference always names a node.
- SlotReferences.PreyStepBySlot: a slot past the end of the vector is
  skipped, where the program's behaviour is undefined.
- Frame.StepKeepsInv: keeps the prey on the map only for frames of at most
  50 s, because a longer frame can leave the map
  (`Agents.LongFrameLeavesMap`).
- Frame.Relink: when no node is named "Creeper", the reference keeps the
  Creeper's id. The program keeps an address whose slot may by then hold
  another node. This cannot happen here, since the Creeper is never erased.

## Findings

| source | as written | input that shows it | evidently intended | confidence | as-written member | corrected member |
|---|---|---|---|---|---|---|
| src/main.cpp:456-468 | after Steve is erased with erase/remove_if, every later object shifts down one slot, but only `creeperRef` is re-bound. `pigRef` keeps its address, which now holds the sky node | the Creeper catches Steve. From then on the pig step moves the sky (and the sun and cloud with it) and the pig stands still. When the Creeper is walked to the sky, the sky is erased as if it were the pig, both references are null and the game ends with the pig alive | `pigRef` keeps naming the pig after Steve's erase | high; not executed | SlotReferences.CatchSteveBySlot | SlotReferences.CatchSteveById |
| src/main.cpp:261 | `yaw = -90.0f` with the comment that it faces -Z, but `cos` and `sin` read it as radians | the first frame with no key held: the view direction is (cos(-90 rad), 0, sin(-90 rad)), about (-0.45, 0, -0.89), about 26.6 degrees off the -Z axis, and at least 0.46 radians from any quarter turn | `glm::radians(-90.0f)`, a quarter turn facing -Z | medium; not executed | Camera.AsWrittenYawNotQuarterTurn | Camera.InitialYawFacesMinusZ |

The stale reference shows in three steps:

- `SlotReferences.EraseShiftsPigSlot` and `SlotReferences.StalePigStepFreezesPig`
  show the shift and the frozen pig in general.
- `SlotReferences.CatchSteveBySlot` shows the frame that catches Steve.
- `SlotReferences.StaleGameOver` shows the game ending early.

The rest of the model uses references by id. `Frame.PreyStepKeepsOthers` and
`Frame.StepKeepsInv` prove that, with references by id, a prey step never
disturbs the other prey's reference.
