/**
 * The live objects of the service: bots, updated in place, and the registry
 * that maps bot ids to bots.  A bot's cells are values (`CellState`) that its
 * methods replace.  Each mutating method is specified against the value-level
 * model of `Motion`: a bot's `State()` after a tick is `Advance` of its state
 * before.
 *
 * The service keeps the registry in a global; here it is an object that is
 * passed to whoever reads or changes it.
 */
module Arena {
  import opened Motion
  import opened Naming
  import opened Order

  // ---------------------------------------------------------------------------
  // Cells

  /**
   * `PyBotCell(x, y, mass, cell_id)`: a cell at (x, y) with this mass, whose
   * `radius` is the square root of `mass / Pi`.  Without a `cellId` (an empty
   * one is as falsy as `None`) the id is the first six characters of the
   * uuid text.
   */
  function NewCell(x: real, y: real, mass: real, radius: real, cellId: string, uuidText: string): (c: CellState)
    requires IsRadiusOf(radius, mass)
    ensures c.x == x && c.y == y && c.mass == mass
    ensures IsRadiusOf(c.radius, c.mass) && RadiusToMass(c.radius) == mass
    ensures cellId != "" ==> c.id == cellId
    ensures cellId == "" ==> c.id <= uuidText && |c.id| == if |uuidText| <= 6 then |uuidText| else 6
  {
    CellState(if cellId != "" then cellId else Prefix(uuidText, 6), x, y, mass, radius)
  }

  /**
   * `update_mass(new_mass)`: the cell keeps its id and position and takes the
   * new mass together with the radius that matches it.
   */
  function UpdateMass(c: CellState, newMass: real, newRadius: real): (d: CellState)
    requires IsRadiusOf(newRadius, newMass)
    ensures d.id == c.id && d.x == c.x && d.y == c.y
    ensures d.mass == newMass && IsRadiusOf(d.radius, d.mass)
  {
    c.(mass := newMass, radius := newRadius)
  }

  /** A cell that gains mass grows, one that loses mass shrinks, and the same mass keeps its radius. */
  lemma UpdateMassRadius(c: CellState, newMass: real, newRadius: real)
    requires IsRadiusOf(c.radius, c.mass) && IsRadiusOf(newRadius, newMass)
    ensures c.mass <= newMass ==> c.radius <= UpdateMass(c, newMass, newRadius).radius
    ensures newMass <= c.mass ==> UpdateMass(c, newMass, newRadius).radius <= c.radius
    ensures newMass == c.mass ==> UpdateMass(c, newMass, newRadius) == c
  {
    RadiusMonotone(c.radius, c.mass, newRadius, newMass);
    RadiusMonotone(newRadius, newMass, c.radius, c.mass);
  }

  // ---------------------------------------------------------------------------
  // Bots

  /**
   * The cell loop of `update_position`: each cell in turn is shifted by the
   * one displacement of this tick and clamped into the arena.
   */
  method MoveCells(cells: seq<CellState>, dx: real, dy: real) returns (moved: seq<CellState>)
    ensures moved == MoveAll(cells, dx, dy)
  {
    moved := cells;
    var i := 0;
    while i < |moved|
      invariant 0 <= i <= |moved| == |cells|
      invariant forall k :: 0 <= k < i ==> moved[k] == MoveCell(cells[k], dx, dy)
      invariant forall k :: i <= k < |moved| ==> moved[k] == cells[k]
    {
      var c := moved[i];
      var x := Max(c.radius, Min(WorldWidth - c.radius, c.x + dx));
      var y := Max(c.radius, Min(WorldHeight - c.radius, c.y + dy));
      moved := moved[i := c.(x := x, y := y)];
      i := i + 1;
    }
  }

  /** A bot (`PyBot`): its cells, its wander target, its clock and its cached total mass. */
  class Bot {
    const id: string
    const name: string
    const color: string
    var cells: seq<CellState>
    var targetX: real
    var targetY: real
    var lastUpdateTime: real
    var totalMass: real

    /** Each cell has a radius matching its mass; the cached total is non-negative. */
    ghost predicate Valid()
      reads this
    {
      CellsValid(cells) && 0.0 <= totalMass && SpeedDefined(totalMass)
    }

    function State(): BotState
      reads this
    {
      BotState(cells, targetX, targetY, lastUpdateTime, totalMass)
    }

    /**
     * `PyBot(bot_id, name, color)`.  An empty argument stands for Python's
     * `None` (an empty string is just as falsy), and the default is built
     * from the spawn draws.  The new bot holds one cell of the initial mass;
     * the registry is consulted and left as it was.
     */
    constructor (botId: string, botName: string, botColor: string, spawn: Spawn, registry: Registry)
      requires spawn.InRange() && registry.Valid()
      modifies registry
      ensures Valid()
      ensures id == if botId != "" then botId else GenerateBotId(spawn.idUuid)
      ensures name == if botName != "" then botName else DefaultName(id)
      ensures color == if botColor != "" then botColor else HexColor(spawn.colorValue)
      ensures State() == Spawned(spawn, Prefix(spawn.cellUuid, 6))
      ensures registry.Valid() && unchanged(registry)
    {
      var theId := if botId != "" then botId else GenerateBotId(spawn.idUuid);
      id := theId;
      name := if botName != "" then botName else DefaultName(theId);
      color := if botColor != "" then botColor else HexColor(spawn.colorValue);
      cells := [];
      targetX := spawn.targetX;
      targetY := spawn.targetY;
      lastUpdateTime := spawn.now;
      totalMass := 0.0;
      new;
      SpeedDefinedForNonNegative(0.0);
      AddInitialCell(spawn.cellX, spawn.cellY, spawn.cellUuid, registry);
    }

    /** Appends a cell of the initial mass at (x0, y0) and recomputes the total. */
    method AddInitialCell(x0: real, y0: real, cellUuid: string, registry: Registry)
      requires Valid() && registry.Valid()
      modifies this, registry
      ensures Valid() && registry.Valid() && unchanged(registry)
      ensures cells == old(cells) + [CellState(Prefix(cellUuid, 6), x0, y0, InitialMass, InitialRadius)]
      ensures totalMass == SumMass(cells)
      ensures targetX == old(targetX) && targetY == old(targetY) && lastUpdateTime == old(lastUpdateTime)
    {
      InitialRadiusMatches();
      cells := cells + [NewCell(x0, y0, InitialMass, InitialRadius, "", cellUuid)];
      RecalculateTotalMass(registry);
    }

    /**
     * `total_mass = sum(cell.mass for cell in cells)`; a bot left without
     * cells is then dropped from the registry under its id, if present.
     */
    method RecalculateTotalMass(registry: Registry)
      requires CellsValid(cells) && registry.Valid()
      modifies this`totalMass, registry`bots, registry`order
      ensures Valid() && registry.Valid()
      ensures totalMass == SumMass(cells)
      ensures |cells| == 0 && id in old(registry.bots) ==>
                registry.bots == old(registry.bots) - {id}
                && registry.order == RemoveKey(old(registry.order), id)
      ensures !(|cells| == 0 && id in old(registry.bots)) ==>
                registry.bots == old(registry.bots) && registry.order == old(registry.order)
    {
      SpeedDefinedForNonNegative(SumMass(cells));
      totalMass := SumMass(cells);
      if |cells| == 0 && id in registry.bots {
        registry.Delete(id);
      }
    }

    /** `get_center_of_mass()`: the centre of mass of the bot's current state. */
    function CenterOfMass(): (com: (real, real))
      reads this
    {
      Motion.CenterOfMass(State())
    }

    /**
     * `update_position(delta_time)`: one motion tick.  Nothing happens to a
     * bot without cells.  Otherwise the target may be re-rolled, every cell
     * is moved by the same displacement and clamped into the arena, and the
     * clock is set.
     */
    method UpdatePosition(deltaTime: real, tick: Tick, direction: (real, real) -> (real, real))
      requires Valid() && tick.InRange()
      modifies this
      ensures Valid()
      ensures State() == Advance(old(State()), deltaTime, tick, direction)
    {
      if |cells| == 0 {
        return;
      }
      ghost var s0 := State();
      var com := CenterOfMass();
      if SquaredDistance(targetX, targetY, com.0, com.1) < RerollDistance * RerollDistance
         || tick.draw < RerollChance
      {
        targetX := tick.newTargetX;
        targetY := tick.newTargetY;
      }
      var heading := direction(targetX - com.0, targetY - com.1);
      var speed := Speed(totalMass);
      var move := Displacement(speed, deltaTime, heading);
      assert move == StepMove(s0, deltaTime, tick, direction);
      var moved := MoveCells(cells, move.0, move.1);
      cells := moved;
      lastUpdateTime := tick.now;
    }
  }

  /** The ids of the bots built from these draws, in order. */
  function SpawnIds(spawns: seq<Spawn>): (ids: seq<string>)
    ensures |ids| == |spawns|
    ensures forall i :: 0 <= i < |spawns| ==> BotIdPrefix <= ids[i]
  {
    seq(|spawns|, i requires 0 <= i < |spawns| => GenerateBotId(spawns[i].idUuid))
  }

  /** The keys of the registered bots that have cells. */
  ghost function HasCells(bots: map<string, Bot>): set<string>
    reads bots.Values
  {
    set k | k in bots && |bots[k].cells| > 0
  }

  /** The bots at these keys that have cells, in order. */
  function WithCells(keys: seq<string>, bots: map<string, Bot>): (live: seq<Bot>)
    requires forall k :: k in keys ==> k in bots
    reads bots.Values
    ensures |live| <= |keys|
    ensures forall b :: b in live ==> |b.cells| > 0
    ensures (forall k :: k in keys ==> |bots[k].cells| > 0) ==> live == Lookup(keys, bots)
    ensures live == Lookup(KeepWhere(keys, HasCells(bots)), bots)
  {
    if keys == [] then []
    else
      var init := WithCells(keys[..|keys| - 1], bots);
      var last := keys[|keys| - 1];
      var b := bots[last];
      LookupSnoc(KeepWhere(keys[..|keys| - 1], HasCells(bots)), last, bots);
      assert last in HasCells(bots) <==> |b.cells| > 0;
      if |b.cells| > 0 then init + [b] else init
  }

  // ---------------------------------------------------------------------------
  // One pass of `get_bots_data`

  /** The tick `get_bots_data` gives a bot: `delta_time` is the time since its own last update. */
  function TickAt(s: BotState, now: real, t: Tick, direction: (real, real) -> (real, real)): (r: BotState)
    requires SpeedDefined(s.totalMass) && t.InRange()
    ensures |s.cells| == 0 ==> r == s
    ensures |s.cells| > 0 ==> r.lastUpdate == t.now && |r.cells| == |s.cells|
    ensures |s.cells| > 0 ==>
              var d := StepMove(s, now - s.lastUpdate, t, direction);
              forall i :: 0 <= i < |s.cells| ==> r.cells[i] == MoveCell(s.cells[i], d.0, d.1)
  {
    Advance(s, now - s.lastUpdate, t, direction)
  }

  /** The states a pass of `get_bots_data` brings these bots to, one tick each. */
  function TickAll(pre: seq<BotState>, now: real, ticks: seq<Tick>, direction: (real, real) -> (real, real)): (post: seq<BotState>)
    requires |ticks| == |pre|
    requires forall j :: 0 <= j < |pre| ==> SpeedDefined(pre[j].totalMass) && ticks[j].InRange()
    ensures |post| == |pre|
  {
    if pre == [] then []
    else TickAll(pre[..|pre| - 1], now, ticks[..|ticks| - 1], direction) + [TickAt(pre[|pre| - 1], now, ticks[|ticks| - 1], direction)]
  }

  lemma {:induction false} TickAllAt(pre: seq<BotState>, now: real, ticks: seq<Tick>, direction: (real, real) -> (real, real), j: int)
    requires |ticks| == |pre|
    requires forall j :: 0 <= j < |pre| ==> SpeedDefined(pre[j].totalMass) && ticks[j].InRange()
    requires 0 <= j < |pre|
    ensures TickAll(pre, now, ticks, direction)[j] == TickAt(pre[j], now, ticks[j], direction)
  {
    if j < |pre| - 1 {
      TickAllAt(pre[..|pre| - 1], now, ticks[..|ticks| - 1], direction, j);
    }
  }

  /** The states of the bots registered under these keys, in order. */
  function StatesAt(keys: seq<string>, bots: map<string, Bot>): (ss: seq<BotState>)
    requires forall k :: k in keys ==> k in bots
    reads bots.Values
    ensures |ss| == |keys|
    ensures forall j :: 0 <= j < |keys| ==> ss[j] == bots[keys[j]].State()
  {
    if keys == [] then [] else StatesAt(keys[..|keys| - 1], bots) + [bots[keys[|keys| - 1]].State()]
  }

  /**
   * The first half of one iteration of `get_bots_data`: the bot under
   * `keys[i]` is ticked with the time since its own last update.  The bots
   * before it have been ticked, the ones after it are untouched.  `next` is
   * `i + 1`, passed in so that the ensures matches the loop's own `i + 1`.
   */
  method Visit(keys: seq<string>, snapshot: map<string, Bot>, ghost alive: set<string>,
               ghost pre: seq<BotState>, ghost want: seq<BotState>, i: int, next: int,
               now: real, ticks: seq<Tick>, direction: (real, real) -> (real, real))
    requires 0 <= i < |keys| == |pre| == |ticks| && Distinct(keys) && next == i + 1
    requires forall k :: k in keys ==> k in snapshot
    requires forall k :: k in snapshot ==>
               snapshot[k].id == k && snapshot[k].Valid() && (k in alive <==> |snapshot[k].cells| > 0)
    requires ticks[i].InRange() && SpeedDefined(pre[i].totalMass)
    requires |want| == |keys| && want[i] == TickAt(pre[i], now, ticks[i], direction)
    requires forall j :: 0 <= j < |keys| ==>
               snapshot[keys[j]].State() == if j < i then want[j] else pre[j]
    modifies snapshot[keys[i]]
    ensures forall k :: k in snapshot ==>
              snapshot[k].Valid() && (k in alive <==> |snapshot[k].cells| > 0)
    ensures forall j :: 0 <= j < |keys| ==>
              snapshot[keys[j]].State() == if j < next then want[j] else pre[j]
  {
    var b := snapshot[keys[i]];
    b.UpdatePosition(now - b.lastUpdateTime, ticks[i], direction);
    forall j | 0 <= j < |keys| && j != i
      ensures snapshot[keys[j]] != b
    {
      DistinctAt(keys, j, i);
    }
  }

  /**
   * The second half of one iteration of `get_bots_data`: the bot under
   * `keys[i]` joins the list if it has cells, or else is deleted from the map
   * and the key order if still there.  `next` is `i + 1`, as for `Visit`.
   */
  method Settle(keys: seq<string>, snapshot: map<string, Bot>, ghost alive: set<string>, i: int, next: int,
                live0: map<string, Bot>, liveOrder0: seq<string>, active0: seq<Bot>)
    returns (live: map<string, Bot>, liveOrder: seq<string>, active: seq<Bot>)
    requires 0 <= i < |keys| && next == i + 1
    requires forall k :: k in keys ==> k in snapshot
    requires keys[i] in alive <==> |snapshot[keys[i]].cells| > 0
    requires (live0, liveOrder0, active0) == Sweep(keys, alive, snapshot, i)
    ensures (live, liveOrder, active) == Sweep(keys, alive, snapshot, next)
  {
    var key := keys[i];
    SweepStep(keys, alive, snapshot, i, next);
    live, liveOrder, active := live0, liveOrder0, active0;
    if |snapshot[key].cells| > 0 {
      active := active + [snapshot[key]];
    } else if key in live {
      live := live - {key};
      liveOrder := RemoveKey(liveOrder, key);
    }
  }

  /**
   * The loop of `get_bots_data` over the listed keys: each bot is ticked, then
   * appended to the list if it has cells, or else deleted from the map and the
   * key order if still there.  Returns the map, key order and list it ends with.
   */
  method VisitAll(keys: seq<string>, snapshot: map<string, Bot>, ghost alive: set<string>,
                  ghost pre: seq<BotState>, ghost want: seq<BotState>,
                  now: real, ticks: seq<Tick>, direction: (real, real) -> (real, real))
    returns (live: map<string, Bot>, liveOrder: seq<string>, active: seq<Bot>)
    requires |keys| == |pre| == |ticks| && Distinct(keys)
    requires forall k :: k in keys <==> k in snapshot
    requires forall k :: k in snapshot ==>
               snapshot[k].id == k && snapshot[k].Valid() && (k in alive <==> |snapshot[k].cells| > 0)
    requires forall j :: 0 <= j < |keys| ==> snapshot[keys[j]].State() == pre[j]
    requires forall j :: 0 <= j < |pre| ==> SpeedDefined(pre[j].totalMass) && ticks[j].InRange()
    requires want == TickAll(pre, now, ticks, direction)
    modifies snapshot.Values
    ensures forall k :: k in snapshot ==>
              snapshot[k].id == k && snapshot[k].Valid() && (k in alive <==> |snapshot[k].cells| > 0)
    ensures forall j :: 0 <= j < |keys| ==> snapshot[keys[j]].State() == want[j]
    ensures (live, liveOrder, active) == Sweep(keys, alive, snapshot, |keys|)
  {
    live, liveOrder, active := snapshot, keys, [];
    assert forall j :: 0 <= j < |keys| ==> keys[j] in snapshot;
    var i := 0;
    while i < |keys|
      invariant 0 <= i <= |keys|
      invariant forall k :: k in snapshot ==>
                  snapshot[k].id == k && snapshot[k].Valid() && (k in alive <==> |snapshot[k].cells| > 0)
      invariant forall j :: 0 <= j < |keys| ==>
                  snapshot[keys[j]].State() == if j < i then want[j] else pre[j]
      invariant (live, liveOrder, active) == Sweep(keys, alive, snapshot, i)
    {
      TickAllAt(pre, now, ticks, direction, i);
      var next := i + 1;
      Visit(keys, snapshot, alive, pre, want, i, next, now, ticks, direction);
      live, liveOrder, active := Settle(keys, snapshot, alive, i, next, live, liveOrder, active);
      i := next;
    }
  }

  /**
   * The bookkeeping of the first i iterations of `get_bots_data` over `keys`,
   * starting from the registry's map: the map and key order after the
   * deletions, and the list of bots with cells.  A bot with cells joins the
   * list; one without is deleted if it is still registered.
   */
  ghost function Sweep(keys: seq<string>, alive: set<string>, snapshot: map<string, Bot>, i: nat)
    : (map<string, Bot>, seq<string>, seq<Bot>)
    requires i <= |keys|
    requires forall k :: k in keys ==> k in snapshot
  {
    if i == 0 then (snapshot, keys, [])
    else
      var (live, liveOrder, active) := Sweep(keys, alive, snapshot, i - 1);
      var key := keys[i - 1];
      if key in alive then (live, liveOrder, active + [snapshot[key]])
      else if key in live then (live - {key}, RemoveKey(liveOrder, key), active)
      else (live, liveOrder, active)
  }

  /** One more iteration of the bookkeeping, as `Sweep` unfolds it at `next = i + 1`. */
  lemma SweepStep(keys: seq<string>, alive: set<string>, snapshot: map<string, Bot>, i: nat, next: nat)
    requires i < |keys| && next == i + 1
    requires forall k :: k in keys ==> k in snapshot
    ensures var (live, liveOrder, active) := Sweep(keys, alive, snapshot, i);
            var key := keys[i];
            Sweep(keys, alive, snapshot, next)
            == if key in alive then (live, liveOrder, active + [snapshot[key]])
               else if key in live then (live - {key}, RemoveKey(liveOrder, key), active)
               else (live, liveOrder, active)
  {
  }

  /**
   * After i iterations the key order is the kept part of the handled keys
   * followed by the keys still to handle, and the map holds exactly the keys
   * of that order with their original bots.
   */
  lemma {:induction false} SweepShape(keys: seq<string>, alive: set<string>, snapshot: map<string, Bot>, i: nat)
    requires i <= |keys| && Distinct(keys)
    requires forall k :: k in keys <==> k in snapshot
    ensures var (live, liveOrder, _) := Sweep(keys, alive, snapshot, i);
            && liveOrder == KeepWhere(keys[..i], alive) + keys[i..]
            && (forall k :: k in liveOrder <==> k in live)
            && (forall k :: k in live ==> k in snapshot && live[k] == snapshot[k])
  {
    if i == 0 {
      assert keys[..0] == [] && keys[0..] == keys;
    } else {
      var j := i - 1;
      SweepShape(keys, alive, snapshot, j);
      SweepStep(keys, alive, snapshot, j, i);
      var (live, liveOrder, _) := Sweep(keys, alive, snapshot, j);
      var key := keys[j];
      KeepWhereAdvance(keys, j, alive);
      assert keys[j..][0] == key;
      if key !in alive {
        assert key in live;
      }
    }
  }

  /** After i iterations the list holds the bots of the handled keys that have cells, in order. */
  lemma {:induction false} SweepList(keys: seq<string>, alive: set<string>, snapshot: map<string, Bot>, i: nat)
    requires i <= |keys|
    requires forall k :: k in keys ==> k in snapshot
    ensures Sweep(keys, alive, snapshot, i).2 == Lookup(KeepWhere(keys[..i], alive), snapshot)
  {
    if i == 0 {
      assert keys[..0] == [];
    } else {
      var j := i - 1;
      SweepList(keys, alive, snapshot, j);
      SweepStep(keys, alive, snapshot, j, i);
      KeepWhereStep(keys, j, alive);
      var done := KeepWhere(keys[..j], alive);
      if keys[j] in alive {
        LookupSnoc(done, keys[j], snapshot);
        assert KeepWhere(keys[..i], alive) == done + [keys[j]];
      } else {
        assert KeepWhere(keys[..i], alive) == done;
      }
    }
  }

  /** After the last iteration the key order is filtered and the list holds the bots it keeps. */
  lemma SweepDone(keys: seq<string>, alive: set<string>, snapshot: map<string, Bot>)
    requires Distinct(keys)
    requires forall k :: k in keys <==> k in snapshot
    ensures var (live, liveOrder, active) := Sweep(keys, alive, snapshot, |keys|);
            && liveOrder == KeepWhere(keys, alive) && Distinct(liveOrder)
            && (forall k :: k in liveOrder <==> k in live)
            && (forall k :: k in live ==> k in keys && k in alive && live[k] == snapshot[k])
            && active == Lookup(liveOrder, live)
  {
    SweepShape(keys, alive, snapshot, |keys|);
    SweepList(keys, alive, snapshot, |keys|);
    assert keys[..|keys|] == keys && keys[|keys|..] == [];
  }

  /**
   * The loop of `get_bots_data` over a snapshot of the registry: every bot is
   * ticked, and the bots that end with cells are kept, in order.
   */
  method TickAndSweep(keys: seq<string>, snapshot: map<string, Bot>,
                      now: real, ticks: seq<Tick>, direction: (real, real) -> (real, real))
    returns (live: map<string, Bot>, liveOrder: seq<string>, active: seq<Bot>)
    requires |keys| == |ticks| && Distinct(keys)
    requires forall k :: k in keys <==> k in snapshot
    requires forall k :: k in snapshot ==> snapshot[k].id == k && snapshot[k].Valid()
    requires forall j :: 0 <= j < |ticks| ==> ticks[j].InRange()
    requires forall j :: 0 <= j < |keys| ==> SpeedDefined(snapshot[keys[j]].totalMass)
    modifies snapshot.Values
    ensures forall j :: 0 <= j < |keys| ==>
              snapshot[keys[j]].State() == TickAt(old(snapshot[keys[j]].State()), now, ticks[j], direction)
    ensures liveOrder == KeepWhere(keys, old(HasCells(snapshot))) && Distinct(liveOrder)
    ensures forall k :: k in liveOrder <==> k in live
    ensures forall k :: k in live ==>
              k in snapshot && live[k] == snapshot[k] && live[k].id == k && live[k].Valid() && |live[k].cells| > 0
    ensures active == Lookup(liveOrder, live)
  {
    ghost var alive := HasCells(snapshot);
    ghost var pre := StatesAt(keys, snapshot);
    ghost var want := TickAll(pre, now, ticks, direction);
    forall j | 0 <= j < |keys| ensures want[j] == TickAt(pre[j], now, ticks[j], direction) {
      TickAllAt(pre, now, ticks, direction, j);
    }
    live, liveOrder, active := VisitAll(keys, snapshot, alive, pre, want, now, ticks, direction);
    SweepDone(keys, alive, snapshot);
  }

  /** The process-wide map from bot id to bot, with its insertion order. */
  class Registry {
    var bots: map<string, Bot>
    /** The keys of `bots` in the order they were first inserted. */
    var order: seq<string>

    /** Every bot is registered under its own id and is valid. */
    ghost predicate Valid()
      reads this, bots.Values
    {
      && Distinct(order)
      && (forall k :: k in order <==> k in bots)
      && (forall k :: k in bots ==> bots[k].id == k && bots[k].Valid())
    }

    /** An empty registry, as at process start. */
    constructor ()
      ensures Valid()
      ensures bots == map[] && order == []
    {
      bots := map[];
      order := [];
    }

    /** `del bots_data[k]`. */
    method Delete(k: string)
      requires Valid() && k in bots
      modifies `bots, `order
      ensures Valid()
      ensures bots == old(bots) - {k} && order == RemoveKey(old(order), k)
    {
      bots := bots - {k};
      order := RemoveKey(order, k);
    }

    /** Replaces the registry's map and key order at once. */
    method Commit(live: map<string, Bot>, liveOrder: seq<string>, ghost snapshot: map<string, Bot>)
      requires Distinct(liveOrder) && (forall k :: k in liveOrder <==> k in live)
      requires forall k :: k in live ==> live[k].id == k && live[k].Valid()
      modifies `bots, `order
      ensures Valid() && bots == live && order == liveOrder
      ensures forall k :: k in snapshot ==> snapshot[k].State() == old(snapshot[k].State())
    {
      bots, order := live, liveOrder;
    }

    /** `bots_data[b.id] = b`: a new key goes last, an existing one is overwritten in place. */
    method Put(b: Bot)
      requires Valid() && b.Valid()
      modifies this
      ensures Valid()
      ensures bots == old(bots)[b.id := b] && order == PutKey(old(order), b.id)
    {
      order := PutKey(order, b.id);
      bots := bots[b.id := b];
    }

    /**
     * `create_bot_instance()` followed by `bots_data[bot.id] = bot`: a new
     * bot with default id, name and colour, registered under its id.
     */
    method SpawnBot(spawn: Spawn) returns (b: Bot)
      requires Valid() && spawn.InRange()
      modifies this
      ensures Valid() && fresh(b)
      ensures b.id == GenerateBotId(spawn.idUuid) && b.name == DefaultName(b.id) && b.color == HexColor(spawn.colorValue)
      ensures b.State() == Spawned(spawn, Prefix(spawn.cellUuid, 6))
      ensures bots == old(bots)[b.id := b] && order == PutKey(old(order), b.id)
      ensures forall c: Bot :: old(allocated(c)) ==> c.State() == old(c.State())
    {
      b := new Bot("", "", "", spawn, this);
      Put(b);
    }

    /** `bots_data.clear()`. */
    method Clear()
      modifies this
      ensures Valid() && bots == map[] && order == []
    {
      bots := map[];
      order := [];
    }

    /**
     * The loop of `reset_all_bots` on an empty registry: one new bot per
     * spawn, each registered under its id as soon as it is built.
     */
    method SpawnAll(spawns: seq<Spawn>)
      requires Valid() && bots == map[] && order == []
      requires forall i :: 0 <= i < |spawns| ==> spawns[i].InRange()
      modifies this
      ensures Valid()
      ensures order == Dedup(SpawnIds(spawns))
      ensures spawns == [] ==> bots == map[]
      ensures forall k :: k in bots ==> fresh(bots[k]) && IsNewBot(bots[k].State())
    {
      var ids := SpawnIds(spawns);
      var i := 0;
      while i < |spawns|
        invariant 0 <= i <= |spawns|
        invariant Valid()
        invariant order == Dedup(ids[..i])
        invariant forall k :: k in bots ==> fresh(bots[k]) && IsNewBot(bots[k].State())
      {
        DedupStep(ids, i);
        ghost var before := bots;
        var b := SpawnBot(spawns[i]);
        forall k | k in bots
          ensures fresh(bots[k]) && IsNewBot(bots[k].State())
        {
          if k != b.id {
            assert k in before && bots[k] == before[k];
          }
        }
        i := i + 1;
      }
      assert ids[..i] == ids;
      if spawns == [] {
        assert bots.Keys == {};
      }
    }

    /**
     * `reset_all_bots`: empties the registry and registers one new bot per
     * spawn, `count` of them (none for a negative count).  Returns the
     * registered bots that have cells, in insertion order.
     */
    method Reset(count: int, spawns: seq<Spawn>) returns (live: seq<Bot>)
      requires |spawns| == if count < 0 then 0 else count
      requires forall i :: 0 <= i < |spawns| ==> spawns[i].InRange()
      modifies this
      ensures Valid()
      ensures order == Dedup(SpawnIds(spawns))
      ensures Distinct(SpawnIds(spawns)) ==> order == SpawnIds(spawns) && |bots| == |spawns|
      ensures count <= 0 ==> bots == map[]
      ensures forall k :: k in bots ==> fresh(bots[k]) && IsNewBot(bots[k].State())
      ensures live == Lookup(order, bots)
    {
      Clear();
      SpawnAll(spawns);
      var ids := SpawnIds(spawns);
      if Distinct(ids) {
        DedupOfDistinct(ids);
        SizeOfKeys(order, bots);
      }
      live := WithCells(order, bots);
    }

    /**
     * `bot_was_eaten(bot_id)`: a registered bot is removed and one new bot
     * is registered in its place (status 200); an unknown id changes
     * nothing (status 404).
     */
    method Eaten(botId: string, spawn: Spawn) returns (status: int)
      requires Valid() && spawn.InRange()
      modifies this
      ensures Valid()
      ensures status == if botId in old(bots) then 200 else 404
      ensures botId !in old(bots) ==> bots == old(bots) && order == old(order)
      ensures botId in old(bots) ==>
                var k := GenerateBotId(spawn.idUuid);
                && k in bots && fresh(bots[k]) && bots[k].State() == Spawned(spawn, Prefix(spawn.cellUuid, 6))
                && bots[k].name == DefaultName(k) && bots[k].color == HexColor(spawn.colorValue)
                && bots == (old(bots) - {botId})[k := bots[k]]
                && order == PutKey(RemoveKey(old(order), botId), k)
                && (k !in old(bots) || k == botId ==> |bots| == |old(bots)|)
    {
      if botId in bots {
        SizeOfKeys(order, bots);
        Delete(botId);
        var b := SpawnBot(spawn);
        SizeOfKeys(order, bots);
        status := 200;
      } else {
        status := 404;
      }
    }

    /**
     * `get_bots_data`: ticks every registered bot, in insertion order, with
     * the time elapsed since its own last update and its own draws; returns
     * the bots that have cells and unregisters those that have none.
     */
    method GetBotsData(now: real, ticks: seq<Tick>, direction: (real, real) -> (real, real))
      returns (active: seq<Bot>)
      requires Valid()
      requires |ticks| == |order|
      requires forall i :: 0 <= i < |ticks| ==> ticks[i].InRange()
      modifies this, bots.Values
      ensures Valid()
      ensures order == KeepWhere(old(order), old(HasCells(bots)))
      ensures forall k :: k in bots ==> k in old(bots) && bots[k] == old(bots)[k] && |bots[k].cells| > 0
      ensures active == Lookup(order, bots)
      ensures forall i :: 0 <= i < |old(order)| ==>
                old(bots)[old(order)[i]].State() == TickAt(old(bots[order[i]].State()), now, ticks[i], direction)
    {
      // `list(bots_data.items())`
      var keys := order;
      var snapshot := bots;
      assert forall j :: 0 <= j < |keys| ==> keys[j] in snapshot;
      var live, liveOrder;
      live, liveOrder, active := TickAndSweep(keys, snapshot, now, ticks, direction);
      Commit(live, liveOrder, snapshot);
    }
  }
}
