# Particle simulator core, modelled in Dafny

This project models the logic of particle-simulator-opengl, a Rust program that
spawns circles under the mouse cursor and moves them with an Euler step. The
circles bounce off the window walls and are drawn with instanced OpenGL rendering.
The rendering itself is not modelled. The project covers these parts of the program:

- **`quadtree`** (`quadtree.dfy`): the quadtree spatial index.
  - The `Tree` datatype holds a boundary rectangle, a capacity, the node's own
    entries and an optional four children.
  - `TreeInsert`, `TreeLen` and `TreeQuery` are the value meaning of `push`,
    `len` and `query`.
  - The class `QuadTree` is the root object whose `points` and `children`
    `push` updates in place.
- **`shader`** (`shader.dfy`): the line-oriented shader section parser.
  - `parse_shader` is a `for` loop over `str::lines`. It is proved equal to a
    fold over classified lines.
  - `from_str` looks up the vertex and fragment sections and fails with
    `NotFound` when a section is absent.
- **`utils`** (`utils.dfy`):
  - the collision response `process_collision`, as written (with its `m1 + m1`
    denominator) and in its corrected elastic form;
  - the record addressing of `get_entity`;
  - the copy performed by `reallocate_instance_vbo`;
  - the index and vertex layout of `generate_circle`.
- **`systems`** (`systems.dfy`): the two per-entity systems on the flat float
  buffer, Euler integration and per-axis wall reflection with clamping. Each
  one is an in-place method on an `array<real>`, proved equal to a sequence
  function.
- **`simulation`** (`simulation.dfy`): the main loop's particle arena and tick.
  - The buffer holds 6-float records `[x, y, radius, red, green, blue]`.
  - A spawn step appends one record and one entity while `offset / 3 < capacity`.
    Otherwise it doubles the capacity and copies the old contents over.
  - A frame holding the mouse button does 100 such steps.
  - The tick runs `update_positions` over every entity and then
    `check_wall_collision` over every entity.
  - The value side is the `Arena` datatype with `SpawnNext`, `SpawnAll`,
    `Schedule` and `Frame`.
  - The class `World` holds the buffer as an `array<real>` together with
    `offset`, `capacity`, `count` and the entity list. Its methods are proved
    against those functions.
- **`config`**, **`vectors`**, **`wrappers`**:
  - the constants of `src/main.rs`;
  - `Vec2` over reals;
  - `Option` and `Result`.

The spawn guard compares `offset / 3` with `capacity`, where `offset` is
`6 * count`. The guard therefore holds exactly while `2 * count < capacity`
(`GrowsWhenHalfFull`). The buffer grows when it is half full, even though it
has room for `capacity` records.

The quadtree is not used by the tick. Its per-frame rebuild is commented out
(`src/main.rs:202-218`), and the schedule (`src/main.rs:38-41`) adds only
`update_positions` and `check_wall_collision`, with no collision system. The
model follows the code: the tick is integration followed by the wall check, and
the quadtree is modelled on its own.

## Model

| member | source | states |
|---|---|---|
| Quadtree.InsideBoundary | src/quadtree.rs:176-185 | half-open containment `[left, left+width) x [top, top+height)`; only a rectangle of positive width and height contains a point |
| Quadtree.CrIntersection | src/quadtree.rs:188-197 | the strict circle/rectangle test through the clamped closest point; a circle of radius 0 meets no rectangle |
| Quadtree.CcIntersection | src/quadtree.rs:200-202 | the inclusive circle/circle test on squared distances; two circles with the same centre always meet, whatever their radii |
| Quadtree.QuadrantsPartition | src/quadtree.rs:121-165 | the four half-open quadrants built by the split contain a point exactly once if the parent contains it, and never otherwise |
| Quadtree.QuadrantInsideParent | src/quadtree.rs:124-165 | a point inside any quadrant is inside the parent boundary |
| Quadtree.ClampIsNearest | src/quadtree.rs:189-193 | the clamped coordinate used by the circle/rectangle test is no farther from the centre than any coordinate of the rectangle |
| Quadtree.PruneKeepsInnerCentres | src/quadtree.rs:188-197 | a rectangle holding a point strictly inside the query circle passes the pruning test |
| Quadtree.InnerCentreIntersects | src/quadtree.rs:200-202 | a stored circle whose centre is strictly inside the query circle passes the inclusive circle/circle test |
| Quadtree.TreeInsert | src/quadtree.rs:101-173 | a push never changes a node's boundary or capacity |
| Quadtree.SplitKeepsInvariant | src/quadtree.rs:113-166 | giving a full childless node its four quadrant children keeps the tree invariant (capacity bound, children placed on the quadrants, entries inside) |
| Quadtree.TreeLen | src/quadtree.rs:35-42 | `len`: own entries plus the four children's; at least the node's own count, and exactly it for a childless node |
| Quadtree.LenCountsEntries | src/quadtree.rs:35-42 | `len` equals the number of entries held by the node and all its descendants |
| Quadtree.InsertAddsEntry | src/quadtree.rs:101-172 | a push adds the entry to the tree's multiset of entries exactly when the point is inside the boundary, and changes nothing else |
| Quadtree.AppendAddsEntry | src/quadtree.rs:106-109 | a node with room that receives an inside point gains exactly that entry |
| Quadtree.InsertLen | src/quadtree.rs:168-172 | `len` grows by exactly one for an inside point and is unchanged otherwise |
| Quadtree.InsertKeepsInvariant | src/quadtree.rs:101-173 | a push keeps every node within capacity, children on the four quadrants of their parent and every entry inside its node |
| Quadtree.InsertNeverMovesEntries | src/quadtree.rs:101-173 | entries already held never move; the node appends only while it has room; children appear exactly when a full node receives an inside point; an outside point leaves the tree unchanged |
| Quadtree.EntriesInside | src/quadtree.rs:101-104 | every entry of a valid tree lies inside the boundary of the node holding it and of every ancestor |
| Quadtree.Matching | src/quadtree.rs:81-89 | the filter over a node's own entries keeps, in order, the payloads of the entries meeting the query circle; never more payloads than entries |
| Quadtree.TreeQuery | src/quadtree.rs:74-99 | `query`: pruned by the rectangle test, own matches first, then the children in order; never returns more payloads than `len` counts |
| Quadtree.MatchingSound | src/quadtree.rs:81-89 | every payload kept by the entry filter belongs to an entry passing the inclusive circle/circle test |
| Quadtree.MatchingComplete | src/quadtree.rs:81-89 | every entry passing the circle/circle test has its payload kept by the filter |
| Quadtree.QuerySound | src/quadtree.rs:74-99 | every payload `query` returns belongs to a stored entry whose circle meets the query circle |
| Quadtree.QueryPruned | src/quadtree.rs:77-79 | a node failing the strict rectangle test returns nothing, its children included |
| Quadtree.LeafQueryEmpty | src/quadtree.rs:74-99 | a fresh node returns nothing for any query |
| Quadtree.QueryFindsInnerCentres | src/quadtree.rs:74-99 | every stored entry whose centre is strictly inside the query circle is returned |
| Quadtree.QueryMissesOverlappingEntry | src/quadtree.rs:77-96 | a stored circle that overlaps the query circle but whose centre lies in a pruned quadrant is not returned |
| Quadtree.QuadTree.constructor | src/quadtree.rs:25-32 | `new` builds an empty node with no children and the given boundary and capacity |
| Quadtree.QuadTree.Len | src/quadtree.rs:35-42 | the count is the number of entries in the whole tree |
| Quadtree.QuadTree.Query | src/quadtree.rs:74-99 | the result is the tree's query: own matching entries first, then the children top-left, top-right, bottom-left, bottom-right |
| Quadtree.QuadTree.Push | src/quadtree.rs:101-173 | the node after the in-place push is the inserted tree, and the invariant holds |
| Shader.Lines | src/shader.rs:99 | `str::lines`: never more lines than characters |
| Shader.NewlineFrom | src/shader.rs:99 | the line splitter stops at the first newline at or after the start, or at the end of the text |
| Shader.LinesHaveNoNewline | src/shader.rs:99 | no line produced by the splitter contains a newline |
| Shader.LinesOfJoin | src/shader.rs:99 | splitting newline-joined lines (none ending in a carriage return) gives back those lines |
| Shader.LinesOfCrlfJoin | src/shader.rs:99 | splitting lines (none holding a newline) written with `\r\n` terminators gives back exactly those lines, each `\r` dropped |
| Shader.WhitespaceLineKept | src/shader.rs:99-102 | only exactly empty lines are skipped; a whitespace-only line is code and is appended with a newline |
| Shader.IsHeader | src/shader.rs:104 | the header test: `--` after any leading whitespace, so a header line has at least two characters |
| Shader.HeaderTestIsTrim | src/shader.rs:104 | a line opens a section exactly when its text with leading whitespace trimmed starts with `--`, and exactly when its text trimmed at both ends does |
| Shader.HeaderName | src/shader.rs:109 | the section name is a suffix of the header line that starts with neither `-` nor a space |
| Shader.HeaderNameKeepsRest | src/shader.rs:109 | the section name drops the leading dashes and spaces and keeps the rest of the line, including other whitespace |
| Shader.BodySnoc | src/shader.rs:111-113 | each code line adds that line and a newline to the section's code |
| Shader.SectionsSplit | src/shader.rs:105-110 | a header closes the previous section and starts a fresh one with empty code |
| Shader.ScanHeader | src/shader.rs:104-110 | one loop step at a header stores the open section with its code and resets the accumulator |
| Shader.ScanLine | src/shader.rs:111-114 | one loop step at a code line extends the accumulated code |
| Shader.ScanEnd | src/shader.rs:117-119 | storing the section still open at the end gives the map of all sections |
| Shader.CodeLinesIgnored | src/shader.rs:105-110 | code lines before the first header belong to no section |
| Shader.PreambleIgnored | src/shader.rs:105-117 | lines before the first header do not affect the result |
| Shader.SectionMapKeys | src/shader.rs:106-118 | the map's keys are exactly the names of the stored sections |
| Shader.KeysAreHeaderNames | src/shader.rs:104-121 | the keys of the result are exactly the header names seen |
| Shader.SectionCount | src/shader.rs:104-110 | one section is stored per header line |
| Shader.EntriesAtMostHeaders | src/shader.rs:104-121 | the number of entries is at most the number of header lines |
| Shader.LastOccurrenceWins | src/shader.rs:106-119 | a repeated section name keeps the code of its last occurrence |
| Shader.ParseLines | src/shader.rs:99-121 | the loop over lines produces the map of the classified lines' sections |
| Shader.Parsed | src/shader.rs:94-122 | the map `parse_shader` is meant to return: its keys are exactly the header names of the input's lines, and it has at most one entry per header line |
| Shader.ParseShader | src/shader.rs:94-122 | `parse_shader` returns the parsed section map of its input |
| Shader.FromStr | src/shader.rs:36-44 | the lookup fails with `NotFound` exactly when the vertex or the fragment name is not a header name; otherwise it yields both sections' code |
| Utils.ProcessCollision | src/utils.rs:114-123 | `process_collision` as written: the first velocity is the elastic one; the second is the equal-mass response whatever the masses |
| Utils.ProcessCollisionAsImpulses | src/utils.rs:114-123 | the first velocity changes by the mass-weighted factor `2*m2/(m1+m2)`; the second by the factor 1, along the line of centres |
| Utils.SelfFactor | src/utils.rs:119 | the second mass factor `(2*m1)/(m1+m1)` is 1 for every nonzero `m1` |
| Utils.SecondIgnoresM2 | src/utils.rs:119-121 | the second result does not depend on `m2` |
| Utils.ResponseAlongLine | src/utils.rs:116-121 | a collision response changes a velocity only along the line of centres; the perpendicular component is kept |
| Utils.ChangesAlongLineOfCentres | src/utils.rs:116-121 | both velocity changes of `process_collision` are parallel to `s1 - s2`; both perpendicular components are unchanged |
| Utils.EqualMassesKeepTotal | src/utils.rs:114-123 | with equal masses the two changes are equal and opposite, so `v1' + v2' = v1 + v2` |
| Utils.ProcessCollisionMomentumChange | src/utils.rs:114-123 | the momentum after `process_collision` differs from before by an explicit multiple of `s1 - s2` |
| Utils.ProcessCollisionKeepsMomentumIff | src/utils.rs:114-123 | momentum is conserved exactly when `m1 == m2`, `m2 == 0`, or the closing speed along the line of centres is zero |
| Utils.ProcessCollisionLosesMomentum | src/utils.rs:114-123 | with unequal nonzero masses and a nonzero closing speed along the line of centres, the total momentum changes |
| Utils.ProcessCollisionMomentumExample | src/utils.rs:119-121 | masses 1 and 3, centres (0, 0) and (1, 0), velocities (1, 0) and (0, 0): the total momentum after the collision differs from before |
| Utils.ElasticAsImpulses | src/utils.rs:116-118 | the corrected formula applies the factors `2*m2/(m1+m2)` and `2*m1/(m1+m2)` along the line of centres |
| Utils.ElasticKeepsMomentum | src/utils.rs:116-118 | the corrected formula conserves momentum for all masses |
| Utils.RecordOf | src/utils.rs:103-105 | every buffer offset lies in the record of one entity index |
| Utils.RecordsDisjoint | src/utils.rs:103-105 | two entity indices whose records share an offset are equal |
| Utils.GetEntity | src/utils.rs:101-112 | `get_entity(index)` denotes exactly the six floats at offsets `index*6 .. index*6+5` |
| Utils.RecordsCoverPrefix | src/utils.rs:101-112 | the records of entities `0..n`, concatenated, are the first `6*n` floats of the buffer |
| Utils.ReallocateInstanceBuffer | src/utils.rs:11-45 | the new buffer is fresh, holds `buffer_capacity*6` floats, and its first `old_capacity*6` floats equal the old buffer's |
| Utils.StorageSizeLimit | src/utils.rs:14-25 | the byte size `capacity * 24` passed to `buffer_storage` and `map_buffer_range` fits a 32-bit signed size for the initial capacity doubled six times, and no longer after the seventh doubling |
| Utils.CircleIndices | src/utils.rs:95-96 | the index list of `generate_circle`: `3*point_count + 3` indices ending in the closing triple `[0, point_count, 1]`, none above `point_count` when there is a rim point |
| Utils.CircleVertices | src/utils.rs:84-93 | the vertex list of `generate_circle`: the centre `(0, 0)` and then one rim point per step, `2*(point_count+1)` floats |
| Utils.ProgramCircleMesh | src/main.rs:72 | the mesh the program builds for `POINT_COUNT = 8` has 27 indices over 18 floats, and every index names a vertex |
| Utils.FanIndices | src/utils.rs:95 | the fan has three indices per rim point |
| Utils.FanTriangle | src/utils.rs:95 | triple `i` of the fan is `[0, i, i+1]` |
| Utils.CircleTriangles | src/utils.rs:95-96 | the index list has `3*point_count + 3` entries: triples `[0, i, i+1]`, then the closing triple `[0, point_count, 1]` |
| Utils.FanBounded | src/utils.rs:95 | every fan index is at most `point_count` |
| Utils.CircleVertexLayout | src/utils.rs:84-93 | the vertex list has `2*(point_count+1)` floats, with the centre `(0, 0)` first and rim point `i` at floats `2+2i` and `3+2i` |
| Utils.IndicesNameVertices | src/utils.rs:88-96 | for at least one rim point, every index names an existing vertex |
| Utils.EmptyCircleNamesMissingVertex | src/utils.rs:83-96 | with no rim points the closing triple names vertex 1, which does not exist |
| Systems.CurrentEntity | src/systems.rs:5-14 | `get_current_entity(index)` denotes x, y and r at offsets `index*6`, `index*6+1`, `index*6+2` |
| Systems.CurrentEntityStartsEntity | src/systems.rs:5-14 | those three floats are the first three of the entity's record |
| Systems.Advance | src/systems.rs:24-27 | one entity's Euler step keeps the buffer's length and never writes the radius |
| Systems.AdvanceMovesOnlyPosition | src/systems.rs:16-28 | integration adds `vx*dt` to x and `vy*dt` to y and leaves every other float unchanged |
| Systems.AdvanceZero | src/systems.rs:26-27 | a zero time step changes nothing |
| Systems.AdvanceTwice | src/systems.rs:26-27 | two steps of `a` and `b` equal one step of `a + b` |
| Systems.AdvanceCommutes | src/systems.rs:24-27 | integrating two different entities gives the same buffer in either order |
| Systems.UpdatePositions | src/systems.rs:16-28 | the in-place update leaves the buffer equal to the integrated one |
| Systems.ReflectCases | src/systems.rs:39-45 | at the near wall: clamp to `r` and negate; otherwise at the far wall: clamp to `limit - r` and negate; the velocity is kept exactly when neither branch fires or it is zero |
| Systems.Reflect | src/systems.rs:39-53 | one axis of the wall check only ever negates the velocity, so its magnitude is kept; if `2r <= limit` the position after it lies in `[r, limit - r]` |
| Systems.ReflectTwiceAtFarWall | src/systems.rs:42-45 | the check is not idempotent at the far wall: a second check negates the velocity back |
| Systems.ReflectTwiceAtNearWall | src/systems.rs:39-41 | at the near wall a second check changes nothing when `2r < limit` |
| Systems.ReflectExample | src/systems.rs:39-41 | a particle at x = 2 with radius 10 moving left is put at x = 10 moving right |
| Systems.CheckWallsOnlyPosition | src/systems.rs:37-53 | the wall check reflects x against the width and y against the height independently, and writes nothing but x and y |
| Systems.CheckWalls | src/systems.rs:37-53 | one entity's wall check keeps the buffer's length, never writes the radius, and keeps `|vx|` and `|vy|` |
| Systems.CheckWallsInside | src/systems.rs:39-53 | with a radius at most half the width and height, the particle ends inside the window |
| Systems.CheckWallCollision | src/systems.rs:30-54 | the in-place check leaves the buffer and velocity equal to the wall-check function's |
| Simulation.InitialArena | src/main.rs:116-119 | the program starts with no particles, offset 0 and the initial capacity, and the arena invariant holds |
| Simulation.NewRecord | src/main.rs:234-235 | a spawned record has six floats |
| Simulation.RecordsFit | src/main.rs:222-243 | every record lies within the `capacity*6`-float buffer, and an append allowed by the guard stays within it |
| Simulation.GrowsWhenHalfFull | src/main.rs:222 | with `offset == 6*count`, the guard `offset / 3 < capacity` holds exactly when `2*count < capacity` |
| Simulation.SpawnNext | src/main.rs:222-271 | one spawn-or-grow step keeps the old records and entities as a prefix and adds at most one particle; a step that adds none doubles the capacity |
| Simulation.SpawnNextOutcome | src/main.rs:222-271 | an append writes `[x, y, 10, r, g, b]` after the old records and adds an entity with the next index and mass 100; otherwise the capacity doubles and nothing else changes |
| Simulation.SpawnAll | src/main.rs:220-272 | a run of steps keeps the old records and entities as a prefix and adds at most one particle per step |
| Simulation.SpawnAllAccount | src/main.rs:220-272 | a burst keeps the invariant; the count never decreases and grows by at most the number of steps; every grow step doubles the capacity; old records and entities are kept |
| Simulation.SpawnAllWithRoom | src/main.rs:220-254 | with room for every step, a burst spawns one particle per step and never grows |
| Simulation.Integrate | src/systems.rs:16-28 | integrating every entity keeps the buffer's length |
| Simulation.Walls | src/systems.rs:30-54 | checking every entity keeps the buffer's length, the entity count, and each entity's index and mass |
| Simulation.IntegrateEach | src/systems.rs:24-27 | after integrating every entity, each particle moved by its own velocity times `dt`; its radius and colour are unchanged |
| Simulation.WallsEach | src/systems.rs:37-53 | after checking every entity, each particle's position and velocity are its own reflection; radius and colour are unchanged |
| Simulation.MovedEach | src/systems.rs:24-27 | the arena's integrated buffer moves each particle by its own velocity |
| Simulation.ScheduleEach | src/main.rs:38-41 | one tick first integrates each particle and then reflects the moved position at the walls |
| Simulation.WallPass | src/systems.rs:30-54 | the wall check over every entity keeps the arena invariant, the count and the capacity |
| Simulation.Schedule | src/main.rs:38-41 | a tick, integration then the wall check, keeps the arena invariant, the count and the capacity |
| Simulation.ScheduleKeepsSpeed | src/systems.rs:39-53 | a tick keeps every particle's speed on each axis |
| Simulation.SpawnNextRadius | src/main.rs:233-235 | every spawned particle has the radius 10 |
| Simulation.SpawnAllRadius | src/main.rs:220-272 | after a burst every particle still has the radius 10 |
| Simulation.ScheduleKeepsParticleInside | src/main.rs:274-275 | in a window at least 20 wide and high, a tick leaves every particle inside the window |
| Simulation.Frame | src/main.rs:220-275 | a frame keeps the arena invariant and adds at most 100 particles; without the mouse button it adds none and keeps the capacity |
| Simulation.FrameKeepsParticlesInside | src/main.rs:220-275 | after any frame every particle is inside a window at least 20 wide and high, and has the radius 10 |
| Simulation.InitialWindowKeepsParticlesInside | src/main.rs:21-22 | in the 800 by 800 window the program opens, every frame leaves every particle inside it |
| Simulation.CopyRecord | src/main.rs:237-241 | the copy writes the record at the offset and leaves the rest of the buffer unchanged |
| Simulation.World.constructor | src/main.rs:116-119 | the arena starts empty with the initial capacity |
| Simulation.World.SpawnStep | src/main.rs:222-271 | one spawn-or-grow step updates the buffer, offset, capacity, count and entities as the spawn specification says |
| Simulation.World.SpawnBurst | src/main.rs:220-272 | the 100-step loop performs the burst the specification describes |
| Simulation.World.UpdatePositionsSystem | src/systems.rs:16-28 | running integration for every entity replaces the records by the integrated ones and changes nothing else |
| Simulation.World.CheckWallCollisionSystem | src/systems.rs:30-54 | running the wall check for every entity produces the wall pass of the arena |
| Simulation.World.RunSchedule | src/main.rs:38-41 | one tick is integration followed by the wall check |
| Simulation.World.RunFrame | src/main.rs:220-275 | a frame is the optional 100-step burst followed by one tick |

## Left out

- OpenGL, GLFW and the window:
  - buffer creation, mapping and deletion; vertex attribute setup; shader compilation and linking; uniforms; drawing; events.
  - The window size is a parameter of the wall check (`width`, `height`). The initial 800 by 800 is a constant, used by `InitialWindowKeepsParticlesInside`.
- Floating point: `f32` and `f64` are exact reals. Rounding, NaN and infinities are not modelled.
  - The quadrant partition relies on exact halving.
  - The `cos`/`sin` rim vertices of `generate_circle` are a parameter `rim`. Only the vertex and index layout is modelled.
- Inputs become parameters:
  - The random velocities and colours and the cursor position are the `Draw` values given to the spawn steps.
  - The frame time `dt` from `Instant` is a parameter.
  - The mouse button state is a boolean parameter.
- The legion ECS is modelled as a sequence of entities in spawn order. Each system visits them in that order.
  - Legion's own iteration order, archetype storage and resources are not modelled.
  - Because entities write disjoint records, the order only matters for the entity list itself.
- Utils.ReallocateInstanceBuffer, Simulation.SpawnNext: the byte size `(buffer_capacity * INSTANCE_DATA_STRIDE) as _` given to `buffer_storage` and `map_buffer_range` (`src/utils.rs:16,24`, `src/main.rs:127,135`) is a 32-bit signed size, and the cast truncates. The model lets the capacity double without limit and gives the new buffer `bufferCapacity * 6` floats. In the source the seventh doubling, when the count reaches 32,000,000 and the capacity goes from 64,000,000 to 128,000,000, asks for 3,072,000,000 bytes, which wraps to a negative size. The storage is then rejected, the mapping fails and the copy writes through a null pointer. `StorageSizeLimit` states where the bound lies; the failure itself is not modelled.
- `InstanceCount` is an `i32`. Its overflow after 2^31 spawns is not modelled; the count is a `nat`. The buffer-size failure above comes far earlier.
- The quadtree rebuild and the `quad_capacity` constant (`src/main.rs:161`, `src/main.rs:202-218`) are commented out or unused in the code and are not part of the tick.
  - The commented-out quadtree drawing is also left out.
- Quadtree.QuadTree.Push: only the root node is an object updated in place. The children are owned values, and the push into them is `TreeInsert`. Aliasing between nodes does not arise in the source, because children are boxed and owned.
- Quadtree.TreeInsert: requires `capacity > 0`. With capacity 0 the source recurses without end under exact arithmetic. With `f32` the recursion ends once the halved width is lost to rounding against the point's coordinate: `left + hw` rounds back to `left`, the point lies in no quadrant, and all four child pushes return.
- The quadtree stores `Option` entries but only ever pushes `Some`. The model stores entries directly.
- Utils.ProcessCollision: requires `s1 != s2`, `m1 + m2 != 0` and `m1 != 0`. The source divides by these and would produce NaN or infinity.
- Utils.ReallocateInstanceBuffer: the floats of the new buffer beyond the copied prefix are left unspecified; the GL storage is uninitialised.
- Systems.CheckWallCollision: returns the new velocity instead of writing through `&mut Velocity`.
- Systems.CurrentEntity, Utils.GetEntity: the unchecked pointer arithmetic becomes a precondition that the record lies within the buffer.
- Systems.UpdatePositions, Systems.CheckWallCollision: model one entity's call. The pointer is resolved to the `World` buffer in `Simulation.World`.
- Shader.FromStr: models only the section lookup; the compiled program handle is not modelled, so the result is the pair of section texts.
- `str::lines` is modelled as splitting at `\n`; a line that ended in `\n` also loses one trailing `\r`. A final newline adds no empty line, and a bare `\r` elsewhere is kept.

## Findings

| source | as written | input that shows it | evidently intended | confidence | as-written member | corrected member |
|---|---|---|---|---|---|---|
| src/utils.rs:119 | the second velocity uses the mass factor `(2.0 * m1) / (m1 + m1)`, which is 1 for every nonzero `m1` | `m1 = 1`, `m2 = 3`, `s1 = (0, 0)`, `s2 = (1, 0)`, `v1 = (1, 0)`, `v2 = (0, 0)`: the total momentum changes | `(2.0 * m1) / (m1 + m2)`, the elastic-collision factor, which conserves momentum | high, not executed | Utils.ProcessCollisionMomentumExample | Utils.ElasticKeepsMomentum |
