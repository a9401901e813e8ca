# Snake game: controller and game manager

A Dafny model of the two game scripts of a small 2D Snake game built on a
component engine:

- the **snake controller** (`Snake.ts`) keeps the heading, the head position,
  the positions of the body nodes (node 0 is the head itself) and a position
  history. Each frame it moves the head, pushes the new head on the front of
  the history, pulls every later entry to `bodySpacing` behind its
  predecessor, drops the last entry, and moves the body nodes onto the
  history. Arrow keys turn the snake; a single arrow key press never reverses it. Growth appends a
  node one spacing behind the last one. Physics contacts are classified by
  the other node's name (`Food`, `SnakeBody`) and by a strict bounds test on
  the head (`|x| > 400 || |y| > 400`).
- the **game manager** (`GameManager.ts`) keeps the score, the game-over flag
  and the single food. `initGame` resets both and spawns the snake at the
  origin and the food on the 40-unit grid. `addScore` adds 10, destroys the
  food and schedules a respawn for the next frame. `gameOver` raises the flag.

Modules:

- `Wrappers` (wrappers.dfy): `Option`, for the nullable node references.
- `Geometry` (geometry.dfy): exact plane vectors standing in for `Vec3` (z is
  always 0), the four axis headings, and `Behind(p, d, s) = p - d * s`, the
  placement used by both growth and the spacing loop.
- `SnakeController` (snake.dfy): the turn policy `Turn` with `TurnPolicy`,
  `OutOfBounds`, `Classify`, the history relaxation `Relax` with its lemmas,
  and the class `Snake`. Its `Valid()` keeps the history as long as the body,
  node 0 on the head, and the heading on an axis. `OnKeyDown`, `Update`,
  `Grow` and `OnCollision` state their whole new state against those
  functions.
- `GameManagement` (game_manager.dfy): `FoodCoord`, `FoodPosition` and the class
  `GameManager`. Its `Valid()` ties the score to a ghost count of `addScore`
  calls since `initGame` (`score == 10 * eaten`) and keeps the food on the
  grid. The deferred respawn is a `respawnPending` flag that `Tick` drains.
- `Scenarios` (scenarios.dfy): client methods calling the two classes in the
  engine's order. Their assertions follow from the contracts alone: growth on
  food, respawn after one tick, self-collision, the bounds edge, and score
  after game over.

Inputs the scripts take from the engine are parameters:

- the frame time `dt` and `Vec3.normalize` (an uninterpreted `Vec -> Vec`) for `Update`;
- the two `Math.random()` draws `rx`, `ry` in [0, 1) for `SpawnFood`, `InitGame` and `Tick`;
- the other node's name for `OnCollision`;
- the key for `OnKeyDown`;
- the parent's manager for the `Snake` constructor;
- whether the prefabs are set, for the `GameManager` constructor.

More facts the contracts establish:

- After every `Update` the body nodes sit exactly on the history
  (`bodyNodes == positions`).
- `RelaxKeepsSpacing`, assuming `normalize` returns unit vectors for
  non-zero input, proves two things. A relaxed entry whose old value differs
  from its relaxed predecessor lies exactly `bodySpacing` from it, in
  straight-line distance. If also `normalize(0) == 0`, an entry whose old
  value coincides with its predecessor lands on it, at distance 0; a frame
  in which the head does not move is one such case.

Behaviours of the code that the model reproduces as they are:

- Spacing is straight-line distance toward the predecessor. It is not
  measured along the path the head travelled.
- `Tick` spawns food even after game over, as the scheduled callback does.
- `addScore` is not blocked after game over.
- The bounds test runs only inside the contact handler, and never for a
  `Food` contact.
- The no-reverse rule is checked per key press, not per frame. Two presses
  before the next `update` can reverse the heading (`TwoPressReversal`), for
  example up then left while heading right.

## Model

| member | source | states |
|---|---|---|
| `SnakeController.Snake.constructor` | assets/scripts/Snake.ts:10-19 | heading starts at (1, 0); empty body and history, so the history invariant holds from the start |
| `SnakeController.Snake.InitSnake` | assets/scripts/Snake.ts:28-32 | the head node becomes body node 0 and its position the first history entry; both lists grow by one |
| `SnakeController.Turn` | assets/scripts/Snake.ts:45-68 | a key press yields either the old heading or the key's own heading, nothing else |
| `SnakeController.TurnPolicy` | assets/scripts/Snake.ts:47-66 | from an axis heading: the result is an axis heading and never the reverse; an arrow key yields its heading unless that is the exact opposite (then, as for the key of the current heading, the heading is kept); any other key changes nothing |
| `SnakeController.TwoPressReversal` | assets/scripts/Snake.ts:47-66 | from every axis heading, some key yields a side turn (neither kept nor reversed) and then some key yields the exact reverse: each press is checked only against the heading it finds |
| `SnakeController.Snake.OnKeyDown` | assets/scripts/Snake.ts:45-68 | heading becomes `Turn(old heading, key)` and stays an axis heading; head, body and history untouched |
| `SnakeController.OutOfBounds` | assets/scripts/Snake.ts:80-83 | in bounds exactly on the closed square [-400, 400]², so a head at ±400 is inside |
| `SnakeController.Classify` | assets/scripts/Snake.ts:70-78 | grow-and-score iff the name is `Food` (even out of bounds); game over iff not food and (`SnakeBody` or out of bounds); out of bounds never does nothing |
| `SnakeController.Snake.OnCollision` | assets/scripts/Snake.ts:70-78 | per `Classify`: food appends one body node behind the last and adds 10 with food cleared and a respawn pending; game over raises the flag with score, food and body unchanged; otherwise nothing changes; the manager's snake is kept in every case and its count of eaten food rises by one exactly on food; no manager means no manager effect |
| `SnakeController.Relax` | assets/scripts/Snake.ts:94-98 | the spacing loop keeps the history's length and its entry 0 (the new head) |
| `SnakeController.RelaxAt` | assets/scripts/Snake.ts:94-98 | entry i of the relaxed history is `spacing` behind the already relaxed entry i-1, along `normalize(entry i-1 − old entry i)` |
| `SnakeController.RelaxKeepsSpacing` | assets/scripts/Snake.ts:93-98 | with a `normalize` that returns unit vectors, each relaxed entry is at squared distance `bodySpacing²` from its predecessor; if its old value coincided with the predecessor and `normalize(0) == 0`, it lands on the predecessor |
| `SnakeController.RelaxExtend` | assets/scripts/Snake.ts:94-97 | one loop step: relaxing one more entry of a prefix replaces exactly that entry by the point behind its relaxed predecessor and leaves the rest of the history as it was |
| `SnakeController.Snake.RelaxPositions` | assets/scripts/Snake.ts:94-98 | the spacing loop turns the history into `Relax` of it |
| `SnakeController.Snake.MoveBodyNodes` | assets/scripts/Snake.ts:105-107 | every body node after the head takes the history entry at its index; node 0 (the head) and the count are unchanged |
| `SnakeController.Snake.Update` | assets/scripts/Snake.ts:85-108 | head moves by `direction × moveSpeed × dt`; history becomes the relaxed `[new head] + old history` cut to the body length; the entry at index 0 is the new head; the body count is kept and the body nodes sit on the history; the heading is unchanged |
| `SnakeController.Snake.Grow` | assets/scripts/Snake.ts:110-139 | body and history each get exactly one new last entry, the last body node's position minus `direction × bodySpacing`; earlier entries, head and heading unchanged |
| `Geometry.BehindDistance` | assets/scripts/Snake.ts:115-116 | the point behind steps back onto `p` when moved by `d × spacing`, at squared distance `spacing² × |d|²` from `p` |
| `Geometry.BehindAxisSpacing` | assets/scripts/Snake.ts:110-117 | behind an axis heading, the point a growth adds lies exactly `bodySpacing` from the former last node |
| `GameManagement.GameManager.constructor` | assets/scripts/GameManager.ts:6-15 | score 0, not over, no snake, no food, nothing pending |
| `GameManagement.GameManager.InitGame` | assets/scripts/GameManager.ts:21-26 | score 0 and not over; snake at the origin when its prefab is set; food on the grid when its prefab is set; otherwise those stay as they were |
| `GameManagement.GameManager.SpawnSnake` | assets/scripts/GameManager.ts:28-34 | with the prefab the snake is at (0, 0); without it nothing changes |
| `GameManagement.FoodCoord` | assets/scripts/GameManager.ts:42-43 | a draw in [0, 1) gives a multiple of 40 in [-400, 360] |
| `GameManagement.FoodCoordCoversGrid` | assets/scripts/GameManager.ts:42-43 | every multiple of 40 in [-400, 360] is reached by some draw |
| `GameManagement.FoodPosition` | assets/scripts/GameManager.ts:42-44 | the food position from the two draws lies on the grid |
| `GameManagement.GameManager.SpawnFood` | assets/scripts/GameManager.ts:36-46 | with the prefab the food is at the grid point of the two draws; without it nothing changes |
| `GameManagement.GameManager.GameOver` | assets/scripts/GameManager.ts:48-52 | flag set, score and everything else unchanged, so a second call changes nothing (idempotent) |
| `GameManagement.GameManager.AddScore` | assets/scripts/GameManager.ts:54-64 | score rises by exactly 10 (so it is 10 × calls since `initGame`), food cleared, respawn pending, game-over flag untouched and not consulted |
| `GameManagement.GameManager.Tick` | assets/scripts/GameManager.ts:60-63 | a pending respawn runs once: after it nothing is pending and, with the prefab, exactly one food on the grid exists; the flag is not consulted; without a pending respawn nothing changes |
| `Scenarios.Start` | assets/scripts/GameManager.ts:17-33 | the start sequence: a fresh game at score 0 with food on the grid and a one-node snake heading right at the origin |

## Left out

- Floating point: coordinates are exact reals, and `Vec3.normalize` is an uninterpreted parameter. Only two of its properties enter, as hypotheses of `RelaxKeepsSpacing`: it returns unit vectors for non-zero input, and `normalize(0) == 0`.
- The z coordinate of `Vec3`: it is 0 in every vector the scripts build.
- Rendering and component setup in `grow`: `UITransform`, `Sprite`, collider group and enabling, adding the node to the scene, `console.log`. The same for the log line in `gameOver`.
- Input and contact registration (`setupInput`, `setupCollision`, `onDestroy`), and the `start` method's lookup of the manager on the parent node. The key and contact handlers are plain methods, and the manager is a constructor parameter.
- `Math.random` and `instantiate`: the draws are parameters, and spawned nodes are optional positions.
- The link between the snake node the manager spawns and the `Snake` controller on it is not modelled. The manager records only the spawned node's position.
- `scheduleOnce` timing: one `respawnPending` flag. Two `addScore` calls before the next frame schedule two spawns in the engine; in the model they merge into one.
- Node identity: `bodyNodes` holds positions, not node objects. The only alias, body node 0 being the head node, is written out: `Update` moves both. The history entry `initSnake` records is the head node's live position vector, not a copy. Values agree with that, because the first `update`, which runs before any contact, replaces that entry.
- `SnakeController.Snake.Grow`: requires a non-empty body. The source reads `bodyNodes[-1]` and throws before `initSnake`; contacts are registered only after `initSnake`.
- `SnakeController.Snake.Update`: requires the history to be as long as the body. The invariant holds from construction on, and the source would pass `undefined` to `setPosition` otherwise.
- `GameManagement.GameManager.AddScore`: the score is an unbounded integer. JavaScript numbers are exact only up to 2^53.
- The lemmas bound the squared distance; there is no square root in the model.
- The arclength-sampling trailing variant is not present in the code.
