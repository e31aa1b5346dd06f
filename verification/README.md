# Bot motion and registry of the agar.io Python bot service

`app.py` is a small HTTP service that keeps a population of computer-controlled
bots for an agar.io-style game. Each bot (`PyBot`) owns one or more circular
cells (`PyBotCell`). A cell's radius is the square root of its mass divided by
pi. On every poll each bot moves its cells towards a wandering target. Heavier
bots are slower. Cells are clamped into a 3000 × 3000 arena. A process-wide
dictionary `bots_data` maps bot ids to bots; it is refilled on reset, and a bot
is replaced when the client reports that it was eaten.

This project models that core in Dafny:

- `Motion.dfy` holds the value-level model:
  - cells and bots as datatypes (`CellState`, `BotState`)
  - mass and radius, the centre of mass, the speed formula, the displacement,
    the clamp and the target re-roll
  - one full tick, `Advance`, and the draws a new bot is built from (`Spawn`,
    `Spawned`)
- `Naming.dfy` holds the generated id `pybot_xxxxxxxx`, the default name
  `PyBot xyz` and the colour `#rrggbb`, with a round trip for the colour's hex
  digits.
- `Order.dfy` holds the insertion order of a Python dict, kept as a sequence
  of distinct keys: what `del`, `d[k] = v` and filtering do to it.
- `Arena.dfy` holds the objects:
  - `Bot` is a class whose methods update its fields in place.
  - `Registry` is a class holding the map `bots` and its key order `order`.
  - Each mutating method is specified against `Motion`. For example,
    `UpdatePosition` ends in the state `Advance(old(State()), …)`.
  - The operations of `get_bots_data`, `reset_all_bots` and `bot_was_eaten`
    state the new map and key order. `get_bots_data` and `bot_was_eaten` also
    state each bot's new state. `Reset` states that every registered bot is
    newly built, not which draw built which bot.

Things the program takes from outside are parameters:

- `uuid.uuid4()`, `random.*` and `time.time()`:
  - `Spawn` holds the draws one bot's construction consumes.
  - `Tick` holds the draws one `update_position` call consumes: the re-roll
    draw, the candidate target and the clock reading at the end of the call.
- `atan2`/`cos`/`sin` become a `direction` function from an offset to a
  heading.
- The square root in `mass_to_radius` becomes the relation
  `IsRadiusOf(radius, mass)`: `radius >= 0` and `Pi * radius * radius == mass`.
- `math.pi` is the real `3.141592653589793`.

Python's `None` and the empty string are both falsy, so an empty string
stands for a missing `bot_id`, `name`, `color` or `cell_id`.

## Model

| member | source | states |
|---|---|---|
| Motion.IsRadiusOf | app.py:22-23 | `mass_to_radius` as a relation between mass and radius: only a non-negative mass has a (real) radius |
| Motion.RadiusToMass | app.py:25-26 | `radius_to_mass` gives a non-negative mass, and for a non-negative radius `mass_to_radius` of that mass gives the radius back |
| Motion.RadiusToMassIncreasing | app.py:25-26 | a larger non-negative radius has a strictly larger mass |
| Motion.RadiusMonotone | app.py:22-23 | the radius of a mass is monotone in the mass, so one mass has only one radius |
| Arena.NewCell | app.py:29-34 | a new cell keeps x, y and mass, carries the matching radius, and takes the given id or else the first six characters of the uuid text |
| Arena.UpdateMass | app.py:36-38 | `update_mass` keeps id and position and sets the mass together with a radius matching it |
| Arena.UpdateMassRadius | app.py:36-38 | gaining mass never shrinks a cell, losing mass never grows it, and the same mass leaves the cell unchanged |
| Naming.GenerateBotId | app.py:19-20 | the id starts with `pybot_` followed by a prefix of at most eight characters of the uuid text, exactly eight when the text has eight |
| Naming.DefaultName | app.py:47 | the default name is `PyBot ` followed by the id's last three characters, or the whole id if shorter |
| Naming.HexColor | app.py:48 | the colour is `#` and six lower-case hex digits that read back as the drawn number |
| Naming.HexDigitsRoundTrip | app.py:48 | writing a number below 16^k with k hex digits and reading them back gives the number |
| Motion.Spawned | app.py:45-60 | a freshly built bot has one cell of the initial mass and radius 15 at a point of [100, 2900]², total mass equal to that mass, a target in [0, 3000]², and its centre of mass on its cell |
| Arena.Bot.constructor | app.py:45-54 | `PyBot()` takes the given id, name and colour or the generated defaults, and its state is that of `Spawned` from its draws, leaving the registry as it was |
| Arena.Bot.AddInitialCell | app.py:56-60 | one cell of the initial mass is appended at the drawn point, the total is recomputed, and target and clock are unchanged |
| Arena.Bot.RecalculateTotalMass | app.py:62-66 | the cached total becomes the sum of the cell masses; a bot left without cells that is registered under its id is deleted from the map and the key order; otherwise the registry is unchanged |
| Motion.SumMass | app.py:63 | the total of cells whose masses are all non-negative is non-negative |
| Motion.SumMassOfSameMasses | app.py:63 | the total mass depends only on the cells' masses |
| Motion.MomentBounds | app.py:72-73 | with non-negative masses, the mass-weighted sum of coordinates lies between the lowest and highest coordinate times the total mass |
| Motion.MomentAbove | app.py:72-73 | with non-negative masses and every coordinate at least lo, the weighted sum is at least lo times the total mass |
| Motion.MomentBelow | app.py:72-73 | with non-negative masses and every coordinate at most hi, the weighted sum is at most hi times the total mass |
| Motion.CenterAlong | app.py:69-73 | along one axis, for a bot with cells and a non-zero cached total, the coordinate times the total is the mass-weighted sum of the coordinates; for a bot with cells and a zero cached total, it is the first cell's coordinate; a single cell whose mass is the total is its own centre |
| Motion.CenterOfMass | app.py:68-74 | a bot without cells reports its target; a bot with a correct cached total and all cells inside the arena reports a point of the arena |
| Motion.CenterWithinBounds | app.py:68-74 | with a correct cached total, each coordinate of the centre of mass lies within any interval that holds all the cells' coordinates, in both the zero-total and the weighted case |
| Motion.CenterInArena | app.py:68-74 | with a correct cached total and every cell inside the arena, the centre of mass lies in the arena |
| Motion.CenterOfShift | app.py:72-73 | moving every cell by one offset moves the centre of mass by that offset |
| Motion.Speed | app.py:90-91 | the speed is at least 0.5 and, for a non-negative mass, at most 2.5 |
| Motion.RawSpeed | app.py:90 | before the floor, the speed of a non-negative mass is positive and at most the base speed 2.5 |
| Motion.RawSpeedDecreasing | app.py:90 | before the floor, the speed strictly decreases as the mass grows |
| Motion.SpeedNonIncreasing | app.py:90-91 | a heavier bot is never faster |
| Motion.SpeedDecreasingAboveFloor | app.py:90-91 | above the 0.5 floor a heavier bot is strictly slower |
| Motion.Displacement | app.py:93-94 | along a unit heading the displacement has length speed · delta_time · 60 |
| Motion.StepMove | app.py:88-94 | when the heading towards the (possibly re-rolled) target is a unit vector, a bot of non-negative mass moves at least 0.5 · delta_time · 60 and at most 2.5 · delta_time · 60 |
| Motion.DisplacementNonIncreasingInMass | app.py:88-94 | for the same elapsed time, a heavier bot's displacement is never longer than a lighter one's |
| Motion.Clamp | app.py:99-100 | the clamped coordinate is at least the radius, at most extent − radius when the cell fits, unchanged when already inside, on the low edge (the radius) when a cell that fits is below it, on the high edge (extent − radius) when it is above it, and equal to the radius when the cell is wider than the arena |
| Motion.NextTarget | app.py:82-86 | when the centre is within 50 of the target or the draw is below 0.01, the new target is exactly the tick's candidate point, drawn in the arena; otherwise the target is kept; a target in the arena stays in the arena |
| Motion.MoveCell | app.py:97-100 | a moved cell keeps its id, mass and radius, ends at least its radius from the low edges, and lies inside the arena when its radius is at most 1500 |
| Motion.MoveAll | app.py:96-100 | the cell loop moves every cell by `MoveCell`, keeping the cell count, the total mass and radii that match the masses |
| Motion.MoveAllUnclamped | app.py:96-100 | when no displaced cell crosses an edge, the cell loop is a plain shift of every cell |
| Arena.MoveCells | app.py:96-100 | the cell loop leaves every cell as `MoveCell` of it: shifted by the tick's displacement and clamped |
| Motion.Advance | app.py:76-102 | a bot without cells is untouched; otherwise count, ids, masses, radii, cached total and total mass are kept, the target is `NextTarget` of the old centre and the clock becomes the tick's time, radii still match masses, every cell is at least its radius from the low edges and inside the arena when its radius is at most 1500, and a target in the arena stays there |
| Motion.AdvanceIsRigid | app.py:93-100 | every cell is the clamp of its position plus one shared displacement, and a cell that stays clear of the edges moves by exactly that displacement |
| Motion.AdvanceMovesCenter | app.py:93-100 | when no cell reaches an edge, the tick moves the centre of mass by exactly the displacement |
| Motion.AdvanceKeepsCenterInArena | app.py:96-100 | after a tick of a bot with a correct cached total and cells no wider than half the arena, its centre of mass is in the arena |
| Arena.Bot.UpdatePosition | app.py:76-102 | the bot's new state is `Advance` of its old state, and it stays valid |
| Arena.Registry.constructor | app.py:17 | the registry starts empty |
| Arena.Registry.Delete | app.py:151 | `del bots_data[k]` removes k from the map and from the key order and keeps the registry valid |
| Arena.Registry.Put | app.py:143 | `bots_data[b.id] = b` maps the id to the bot; a new id goes last in the order, an existing one keeps its place |
| Arena.Registry.Clear | app.py:139 | `clear()` leaves an empty map and order |
| Arena.Registry.SpawnBot | app.py:152-153 | a new bot is built with the generated id, the default name `PyBot xyz`, the drawn colour and the state `Spawned` gives for its draws, and is registered under its id (last in the order if the id is new); every other bot's state is unchanged |
| Arena.Registry.SpawnAll | app.py:141-143 | after the loop the key order is the spawned ids with repeats dropped, and every registered bot is new and freshly built |
| Arena.Registry.Reset | app.py:137-145 | the key order is the spawned ids in spawn order with repeats dropped, and every registered bot is newly built; with distinct ids the order is exactly those ids and there are `count` bots; a count of zero or less leaves the registry empty; the result lists the registered bots in order |
| Arena.Registry.Eaten | app.py:148-156 | a registered id is removed and a new bot with the generated id, the default name, the drawn colour and the `Spawned` state is registered under its id (status 200), keeping the count unless the new id collides; an unknown id changes nothing (status 404) |
| Arena.TickAt | app.py:127-128 | a bot without cells is untouched; otherwise its clock becomes the tick's reading, it keeps its cell count, and every cell is moved by `MoveCell` with the one displacement `StepMove` gives for the time since the bot's last update |
| Arena.TickAllAt | app.py:126-128 | each bot of the pass is ticked with the time since its own last update and its own draws |
| Arena.Visit | app.py:127-128 | one iteration ticks exactly the bot at its key; those before it are already ticked, those after it untouched |
| Arena.Settle | app.py:129-133 | the rest of one iteration: a bot with cells is appended to the list; a bot without cells is deleted from the map and the key order if it is still there; the result is `Sweep` one key further |
| Arena.VisitAll | app.py:126-133 | the loop ticks every listed bot and ends with the map, order and list that `Sweep` describes |
| Arena.TickAndSweep | app.py:126-133 | over a snapshot of the registry, every bot is ticked once with its own draws; the kept order is the snapshot's order filtered to the bots with cells, the kept map holds exactly those bots, and the list returns them in order |
| Arena.SweepShape | app.py:129-133 | after i iterations the order is the kept part of the handled keys followed by the unhandled keys, and the map holds exactly those keys with their original bots |
| Arena.SweepList | app.py:129-130 | after i iterations the returned list holds the handled bots that have cells, in order |
| Arena.SweepDone | app.py:126-133 | at the end the order is the old order filtered to bots with cells, and the list holds exactly the registered bots in order |
| Arena.Registry.GetBotsData | app.py:123-134 | every listed bot is ticked once; the order becomes the old order filtered to bots with cells; no bot is added and none without cells remains; the result lists the remaining bots in order |
| Arena.WithCells | app.py:145 | exactly the bots of the keys that have cells, in key order (the lookup of the filtered keys), and all of them when all have cells |
| Order.RemoveKey | app.py:133 | `del` removes exactly that key from the order, keeps the others in order and keeps them distinct |
| Order.RemoveKeyBetween | app.py:151 | deleting a key that occurs once joins the keys before and after it |
| Order.PutKey | app.py:143 | inserting a key keeps the old order as a prefix, adds the key last if it is new and leaves the order unchanged otherwise |
| Order.Dedup | app.py:141-143 | inserting keys one after another gives a distinct order holding exactly those keys |
| Order.DedupOfDistinct | app.py:141-143 | inserting distinct keys keeps every one of them, in order |
| Order.KeepWhere | app.py:129-133 | filtering an order keeps exactly the keys in the set, in order, and keeps them distinct |
| Order.KeepWhereAdvance | app.py:129-133 | handling one more key while walking a distinct order, kept or deleted, moves the boundary between filtered and unfiltered keys one step |
| Order.KeepWhereKept | app.py:129-130 | a kept key stays in place |
| Order.KeepWhereDropped | app.py:131-133 | a dropped key is deleted from between the filtered prefix and the rest |
| Order.SizeOfKeys | app.py:144 | `len(bots_data)` counts the order: a map whose keys are exactly the elements of a distinct order has as many entries as the order |

## Left out

- HTTP routing, `jsonify`, CORS, the logger, `health_check`, the `to_dict` snapshots and the `__main__` start-up (ten bots, random port) are not modelled. `GetBotsData` and `Reset` return the bot objects that would be serialised.
- The query parameter `count` of `reset_all_bots` arrives as an integer; its parsing and the default of 10 are not modelled.
- `BOT_MAX_CELLS` is not modelled. The source never reads it.
- Floating point is modelled as exact reals: no rounding, overflow, NaN or infinities.
- The square root, `atan2`, `cos` and `sin` are not computed. The radius is an input constrained by `IsRadiusOf`, and the heading is whatever `direction` returns.
- `uuid`, `random` and `time` are not modelled. Their results are passed in as `Spawn` and `Tick` values, constrained only to the ranges the calls produce.
- Concurrency: Flask may run handlers on several threads. The model runs one operation at a time.
- Cells are values (`CellState`) that the bot's methods replace, not objects of their own. The source never shares a cell between bots, so no aliasing is lost.
- The registry is an object passed to the methods that use it, rather than a module global.
- Arena.Registry.GetBotsData: deletions are applied to a local copy of the map and key order, which is written back once after the loop. The loop's one read of the registry is the membership test `bot_id in bots_data` (app.py:132). The model makes that test on the local copy, which holds the same keys as the registry at that point, so the final state is the same as deleting in place.
- Arena.Bot.UpdatePosition: the clock reading stored at the end of `update_position` is the tick's own `now`. It is independent of the `current_time` that `get_bots_data` uses to compute `delta_time`, as in the source.
- Motion.Advance: the in-arena guarantee for a cell is stated only for radius at most 1500. A wider cell cannot fit, and the clamp puts it at x = radius (likewise for y), beyond the far edge, exactly as the code does.
- Arena.Registry.Reset: exactly `count` bots are guaranteed only when the generated ids are distinct. Two colliding uuid prefixes overwrite one entry of the dict, which the model follows.
- Arena.Registry.Reset: the contract says each registered bot is newly built with one cell of the initial mass (`IsNewBot`). It does not say which draw of `spawns` built which bot; `SpawnBot` states that for a single bot.
- Arena.Registry.SpawnAll: the same weaker statement as `Reset`: every registered bot is newly built, without naming the draw it came from.
- Arena.Registry.Eaten: the bot count is kept only when the new id is not already registered under another bot. A colliding id overwrites that entry, as in the code.
