/**
 * The frame loop of src/main.rs. While the left mouse button is held, each
 * frame runs 100 spawn-or-grow steps: a step either writes a new particle
 * record at `instance_data_offset` and pushes its entity, or, once the
 * buffer guard fails, doubles `buffer_capacity` and moves the records to a
 * new buffer. Then the schedule runs `update_positions` over every entity,
 * followed by `check_wall_collision` over every entity.
 *
 * The state is described twice: as a value (`Arena`) on which the
 * properties are proved, and as the `World` class whose methods update the
 * buffer and the counters in place and are proved against the value.
 */
module Simulation {
  import opened Vectors
  import opened Config
  import opened Utils
  import opened Systems

  /** A particle entity: its `EntityIndex`, `Velocity` and `Mass` components. */
  datatype Entity = Entity(index: nat, velocity: Vec2, mass: real)

  /** What one spawning step reads from outside: the cursor position, a random velocity and a random colour. */
  datatype Draw = Draw(cursor: Vec2, velocity: Vec2, red: real, green: real, blue: real)

  /**
   * The state the spawn loop and the systems share: the written part of the
   * instance buffer (its length is `instance_data_offset`), `buffer_capacity`
   * in records, the `InstanceCount` resource and the entities of the world
   * in the order they were pushed.
   */
  datatype Arena = Arena(records: seq<real>, capacity: nat, count: nat, entities: seq<Entity>)

  /** Entity `k` addresses record `k`. */
  predicate Indexed(es: seq<Entity>)
  {
    forall k | 0 <= k < |es| :: es[k].index == k
  }

  /**
   * What the spawn loop keeps: one record per counted entity, entity `k`
   * addressing record `k`, and the count at most about half the capacity
   * (the guard compares `instance_data_offset / 3`, twice the count, with
   * the capacity).
   */
  predicate ArenaValid(a: Arena)
  {
    && 1 <= a.capacity
    && |a.records| == FLOATS_PER_INSTANCE * a.count
    && |a.entities| == a.count
    && 2 * a.count <= a.capacity + 1
    && Indexed(a.entities)
  }

  /** The state before the first frame. */
  function InitialArena(): (a: Arena)
    ensures ArenaValid(a) && a.count == 0
  {
    Arena([], INITIAL_BUFFER_FLOAT_CAPACITY, 0, [])
  }

  /** `[x, y, particle_radius, r, g, b]` for one spawned particle. */
  function NewRecord(d: Draw): (rec: seq<real>)
    ensures |rec| == FLOATS_PER_INSTANCE
  {
    [d.cursor.x, d.cursor.y, PARTICLE_RADIUS, d.red, d.green, d.blue]
  }

  // ---------------------------------------------------------------------------
  // The spawn loop
  // ---------------------------------------------------------------------------

  /** One iteration of the `for _ in 0..100` loop. */
  function SpawnNext(a: Arena, d: Draw): (b: Arena)
    ensures a.records <= b.records && a.entities <= b.entities
    ensures a.count <= b.count <= a.count + 1
    ensures b.count == a.count ==> b.capacity == 2 * a.capacity
  {
    if |a.records| / 3 < a.capacity then
      Arena(a.records + NewRecord(d), a.capacity, a.count + 1,
            a.entities + [Entity(a.count, d.velocity, PARTICLE_RADIUS * PARTICLE_RADIUS)])
    else
      Arena(a.records, 2 * a.capacity, a.count, a.entities)
  }

  /** A record written at `instance_data_offset` by the next step lies inside the buffer. */
  lemma RecordsFit(a: Arena)
    requires ArenaValid(a)
    ensures |a.records| <= FLOATS_PER_INSTANCE * a.capacity
    ensures |a.records| / 3 < a.capacity ==> |a.records| + FLOATS_PER_INSTANCE <= FLOATS_PER_INSTANCE * a.capacity
  {
  }

  /** The buffer grows exactly when half of its records are in use. */
  lemma GrowsWhenHalfFull(a: Arena)
    requires ArenaValid(a)
    ensures |a.records| / 3 < a.capacity <==> 2 * a.count < a.capacity
  {
    assert |a.records| / 3 == 2 * a.count;
  }

  /**
   * A step either spawns one particle (its record appended, its entity
   * numbered by the old count, mass `radius^2`) or doubles the capacity and
   * changes nothing else; in both cases the loop's invariant is kept.
   */
  lemma SpawnNextOutcome(a: Arena, d: Draw)
    requires ArenaValid(a)
    ensures var b := SpawnNext(a, d);
            && ArenaValid(b)
            && (2 * a.count < a.capacity ==>
                  && b.records == a.records + NewRecord(d)
                  && b.count == a.count + 1
                  && b.entities == a.entities + [Entity(a.count, d.velocity, 100.0)]
                  && b.capacity == a.capacity)
            && (a.capacity <= 2 * a.count ==>
                  b == a.(capacity := 2 * a.capacity))
  {
    GrowsWhenHalfFull(a);
  }

  /** `n` doublings: `2^n`. */
  function Pow2(n: nat): (p: nat)
    ensures p >= 1
  {
    if n == 0 then 1 else 2 * Pow2(n - 1)
  }

  /** The steps of one frame, in order. */
  function SpawnAll(a: Arena, ds: seq<Draw>): (b: Arena)
    ensures a.records <= b.records && a.entities <= b.entities
    ensures a.count <= b.count <= a.count + |ds|
    decreases |ds|
  {
    if |ds| == 0 then a else SpawnNext(SpawnAll(a, ds[..|ds| - 1]), ds[|ds| - 1])
  }

  /**
   * Over any run of steps, every step either spawned or doubled: the
   * spawned particles plus the doublings add up to the number of steps,
   * the capacity is the old one times `2^doublings`, and the records and
   * entities that were there before are kept as a prefix.
   */
  lemma {:induction false} SpawnAllAccount(a: Arena, ds: seq<Draw>)
    requires ArenaValid(a)
    ensures var b := SpawnAll(a, ds);
            && ArenaValid(b)
            && a.count <= b.count <= a.count + |ds|
            && b.capacity == a.capacity * Pow2(|ds| - (b.count - a.count))
            && a.records <= b.records
            && a.entities <= b.entities
    decreases |ds|
  {
    if |ds| > 0 {
      var prev := SpawnAll(a, ds[..|ds| - 1]);
      SpawnAllAccount(a, ds[..|ds| - 1]);
      SpawnNextOutcome(prev, ds[|ds| - 1]);
      var b := SpawnAll(a, ds);
      if 2 * prev.count < prev.capacity {
        assert |ds| - (b.count - a.count) == |ds| - 1 - (prev.count - a.count);
      } else {
        var g := |ds| - 1 - (prev.count - a.count);
        assert |ds| - (b.count - a.count) == g + 1;
        assert b.capacity == a.capacity * Pow2(g + 1) by { TimesPow2Next(a.capacity, g); }
      }
    }
  }

  /** One more doubling doubles the product. */
  lemma TimesPow2Next(c: nat, g: nat)
    ensures c * Pow2(g + 1) == 2 * (c * Pow2(g))
  {
    assert Pow2(g + 1) == 2 * Pow2(g);
  }

  /** While the buffer has room for twice the particles still to come, every step spawns. */
  lemma {:induction false} SpawnAllWithRoom(a: Arena, ds: seq<Draw>)
    requires ArenaValid(a)
    requires 2 * (a.count + |ds|) <= a.capacity
    ensures SpawnAll(a, ds).count == a.count + |ds|
    ensures SpawnAll(a, ds).capacity == a.capacity
    decreases |ds|
  {
    if |ds| > 0 {
      var prev := SpawnAll(a, ds[..|ds| - 1]);
      SpawnAllWithRoom(a, ds[..|ds| - 1]);
      SpawnAllAccount(a, ds[..|ds| - 1]);
      SpawnNextOutcome(prev, ds[|ds| - 1]);
    }
  }

  // ---------------------------------------------------------------------------
  // The schedule: update_positions, then check_wall_collision
  // ---------------------------------------------------------------------------

  /** Every entity's record lies inside `records`. */
  predicate Fits(records: seq<real>, es: seq<Entity>)
  {
    forall k | 0 <= k < |es| :: RecordStart(es[k].index) + FLOATS_PER_INSTANCE <= |records|
  }

  /** A valid arena's entities address records that were written. */
  lemma ValidFits(a: Arena, n: nat)
    requires ArenaValid(a) && n <= |a.entities|
    ensures Fits(a.records, a.entities[..n])
  {
    forall k | 0 <= k < n
      ensures RecordStart(a.entities[..n][k].index) + FLOATS_PER_INSTANCE <= |a.records|
    {
      assert a.entities[..n][k].index == k;
      assert RecordStart(k) + FLOATS_PER_INSTANCE == (k + 1) * FLOATS_PER_INSTANCE;
    }
  }

  /** `update_positions` run over the entities `es`, in order. */
  function Integrate(records: seq<real>, es: seq<Entity>, dt: real): (r: seq<real>)
    requires Fits(records, es)
    ensures |r| == |records|
    decreases |es|
  {
    if |es| == 0 then records
    else
      var last := es[|es| - 1];
      Advance(Integrate(records, es[..|es| - 1], dt), last.index, last.velocity, dt)
  }

  /** `check_wall_collision` run over the entities `es`, in order, with each entity's new velocity. */
  function Walls(records: seq<real>, es: seq<Entity>, width: int, height: int): (r: (seq<real>, seq<Entity>))
    requires Fits(records, es)
    ensures |r.0| == |records| && |r.1| == |es|
    ensures forall k | 0 <= k < |es| :: r.1[k].index == es[k].index && r.1[k].mass == es[k].mass
    decreases |es|
  {
    if |es| == 0 then (records, [])
    else
      var last := es[|es| - 1];
      var (prev, done) := Walls(records, es[..|es| - 1], width, height);
      var (next, v) := CheckWalls(prev, last.index, last.velocity, width, height);
      (next, done + [last.(velocity := v)])
  }

  /** The buffer after `update_positions` has run over every entity. */
  function Moved(a: Arena, dt: real): (r: seq<real>)
    requires ArenaValid(a)
    ensures |r| == |a.records|
  {
    ValidFits(a, |a.entities|);
    assert a.entities[..|a.entities|] == a.entities;
    Integrate(a.records, a.entities, dt)
  }

  /** The arena after `check_wall_collision` has run over every entity. */
  function WallPass(a: Arena, width: int, height: int): (b: Arena)
    requires ArenaValid(a)
    ensures ArenaValid(b) && b.capacity == a.capacity && b.count == a.count
  {
    ValidFits(a, |a.entities|);
    assert a.entities[..|a.entities|] == a.entities;
    var checked := Walls(a.records, a.entities, width, height);
    Arena(checked.0, a.capacity, a.count, checked.1)
  }

  /** One `schedule.execute`: all positions move, then all particles are checked against the walls. */
  function Schedule(a: Arena, dt: real, width: int, height: int): (b: Arena)
    requires ArenaValid(a)
    ensures ArenaValid(b) && b.capacity == a.capacity && b.count == a.count
  {
    WallPass(a.(records := Moved(a, dt)), width, height)
  }

  /** Dropping the last entity keeps the others' records inside and their numbering. */
  lemma FitsPrefix(records: seq<real>, es: seq<Entity>)
    requires Fits(records, es) && Indexed(es) && |es| > 0
    ensures Fits(records, es[..|es| - 1]) && Indexed(es[..|es| - 1])
  {
    assert forall k | 0 <= k < |es| - 1 :: es[..|es| - 1][k] == es[k];
  }

  /** Record `k` ends before record `j` starts when `k < j`. */
  lemma RecordsOrdered(k: nat, j: nat)
    requires k < j
    ensures RecordStart(k) + FLOATS_PER_INSTANCE <= RecordStart(j)
  {
  }

  /** `update_positions` over `es` leaves the floats after their records alone. */
  lemma {:induction false} IntegrateBeyond(records: seq<real>, es: seq<Entity>, dt: real, j: nat)
    requires Fits(records, es) && Indexed(es)
    requires FLOATS_PER_INSTANCE * |es| <= j < |records|
    ensures Integrate(records, es, dt)[j] == records[j]
    decreases |es|
  {
    if |es| > 0 {
      var n := |es| - 1;
      FitsPrefix(records, es);
      IntegrateBeyond(records, es[..n], dt, j);
      AdvanceMovesOnlyPosition(Integrate(records, es[..n], dt), n, es[n].velocity, dt);
    }
  }

  /**
   * After `update_positions` over entities numbered by position, particle
   * `k` has moved by its own velocity times `dt`, and its radius and colour
   * are those it had.
   */
  lemma {:induction false} IntegrateEach(records: seq<real>, es: seq<Entity>, dt: real, k: nat, v: Vec2)
    requires Fits(records, es) && Indexed(es) && k < |es| && es[k].velocity == v
    ensures var r := Integrate(records, es, dt);
            var b := RecordStart(k);
            && r[b + X_FIELD] == records[b + X_FIELD] + v.x * dt
            && r[b + Y_FIELD] == records[b + Y_FIELD] + v.y * dt
            && r[b + RADIUS_FIELD..b + FLOATS_PER_INSTANCE] == records[b + RADIUS_FIELD..b + FLOATS_PER_INSTANCE]
    decreases |es|
  {
    var n := |es| - 1;
    var b := RecordStart(k);
    FitsPrefix(records, es);
    var prev := Integrate(records, es[..n], dt);
    var r := Integrate(records, es, dt);
    if k < n {
      AdvanceMovesOnlyPosition(prev, n, es[n].velocity, dt);
      assert r[b + RADIUS_FIELD..b + FLOATS_PER_INSTANCE] == prev[b + RADIUS_FIELD..b + FLOATS_PER_INSTANCE];
      assert es[..n][k] == es[k];
      IntegrateEach(records, es[..n], dt, k, v);
      RecordsOrdered(k, n);
      assert r[b + X_FIELD] == prev[b + X_FIELD] && r[b + Y_FIELD] == prev[b + Y_FIELD];
    } else {
      assert r == Advance(prev, n, v, dt);
      AdvanceMovesOnlyPosition(prev, n, v, dt);
      assert r[b + RADIUS_FIELD..b + FLOATS_PER_INSTANCE] == prev[b + RADIUS_FIELD..b + FLOATS_PER_INSTANCE];
      forall j | b <= j < b + FLOATS_PER_INSTANCE
        ensures prev[j] == records[j]
      {
        IntegrateBeyond(records, es[..n], dt, j);
      }
      assert prev[b + RADIUS_FIELD..b + FLOATS_PER_INSTANCE] == records[b + RADIUS_FIELD..b + FLOATS_PER_INSTANCE];
    }
  }

  /** `check_wall_collision` over `es` leaves the floats after their records alone. */
  lemma {:induction false} WallsBeyond(records: seq<real>, es: seq<Entity>, width: int, height: int, j: nat)
    requires Fits(records, es) && Indexed(es)
    requires FLOATS_PER_INSTANCE * |es| <= j < |records|
    ensures Walls(records, es, width, height).0[j] == records[j]
    decreases |es|
  {
    if |es| > 0 {
      var n := |es| - 1;
      FitsPrefix(records, es);
      WallsBeyond(records, es[..n], width, height, j);
      CheckWallsOnlyPosition(Walls(records, es[..n], width, height).0, n, es[n].velocity, width, height);
    }
  }

  /**
   * After `check_wall_collision` over entities numbered by position,
   * particle `k`'s position and velocity are those of its own wall check
   * on each axis, and its radius and colour are unchanged.
   */
  lemma {:induction false} WallsEach(records: seq<real>, es: seq<Entity>, width: int, height: int, k: nat)
    requires Fits(records, es) && Indexed(es) && k < |es|
    ensures var (r, after) := Walls(records, es, width, height);
            var b := RecordStart(k);
            var radius := records[b + RADIUS_FIELD];
            && (r[b + X_FIELD], after[k].velocity.x) == Reflect(records[b + X_FIELD], radius, es[k].velocity.x, width as real)
            && (r[b + Y_FIELD], after[k].velocity.y) == Reflect(records[b + Y_FIELD], radius, es[k].velocity.y, height as real)
            && r[b + RADIUS_FIELD..b + FLOATS_PER_INSTANCE] == records[b + RADIUS_FIELD..b + FLOATS_PER_INSTANCE]
    decreases |es|
  {
    var n := |es| - 1;
    var b := RecordStart(k);
    FitsPrefix(records, es);
    var (prev, done) := Walls(records, es[..n], width, height);
    CheckWallsOnlyPosition(prev, n, es[n].velocity, width, height);
    if k < n {
      WallsEach(records, es[..n], width, height, k);
      RecordsOrdered(k, n);
    } else {
      forall j | b <= j < b + FLOATS_PER_INSTANCE
        ensures prev[j] == records[j]
      {
        WallsBeyond(records, es[..n], width, height, j);
      }
    }
  }

  /** After `update_positions`, particle `k` has moved by its velocity times `dt`; its radius and colour stay. */
  lemma MovedEach(a: Arena, dt: real, k: nat)
    requires ArenaValid(a) && k < a.count
    ensures RecordStart(k) + FLOATS_PER_INSTANCE <= |a.records|
    ensures var m := Moved(a, dt);
            var s := RecordStart(k);
            && m[s + X_FIELD] == a.records[s + X_FIELD] + a.entities[k].velocity.x * dt
            && m[s + Y_FIELD] == a.records[s + Y_FIELD] + a.entities[k].velocity.y * dt
            && m[s + RADIUS_FIELD..s + FLOATS_PER_INSTANCE] == a.records[s + RADIUS_FIELD..s + FLOATS_PER_INSTANCE]
  {
    ValidFits(a, |a.entities|);
    assert a.entities[..|a.entities|] == a.entities;
    var m := Moved(a, dt);
    assert m == Integrate(a.records, a.entities, dt);
    RecordsOrdered(k, a.count);
    IntegrateEach(a.records, a.entities, dt, k, a.entities[k].velocity);
    var s := RecordStart(k);
    assert m[s + X_FIELD] == a.records[s + X_FIELD] + a.entities[k].velocity.x * dt;
    assert m[s + Y_FIELD] == a.records[s + Y_FIELD] + a.entities[k].velocity.y * dt;
  }

  /**
   * One run of the schedule, particle by particle: particle `k` is
   * reflected off the walls on each axis from where `update_positions`
   * moved it; its radius, colour, index and mass stay.
   */
  lemma ScheduleEach(a: Arena, dt: real, width: int, height: int, k: nat)
    requires ArenaValid(a) && k < a.count
    ensures RecordStart(k) + FLOATS_PER_INSTANCE <= |a.records|
    ensures var b := Schedule(a, dt, width, height);
            var m := Moved(a, dt);
            var s := RecordStart(k);
            var e := a.entities[k];
            && |b.records| == |a.records| && k < |b.entities|
            && (b.records[s + X_FIELD], b.entities[k].velocity.x)
               == Reflect(m[s + X_FIELD], a.records[s + RADIUS_FIELD], e.velocity.x, width as real)
            && (b.records[s + Y_FIELD], b.entities[k].velocity.y)
               == Reflect(m[s + Y_FIELD], a.records[s + RADIUS_FIELD], e.velocity.y, height as real)
            && b.records[s + RADIUS_FIELD..s + FLOATS_PER_INSTANCE] == a.records[s + RADIUS_FIELD..s + FLOATS_PER_INSTANCE]
            && b.entities[k].index == k && b.entities[k].mass == e.mass
  {
    var s := RecordStart(k);
    var m := Moved(a, dt);
    RecordsOrdered(k, a.count);
    assert m[s + RADIUS_FIELD..s + FLOATS_PER_INSTANCE] == a.records[s + RADIUS_FIELD..s + FLOATS_PER_INSTANCE] by {
      MovedEach(a, dt, k);
    }
    assert m[s + RADIUS_FIELD] == a.records[s + RADIUS_FIELD] by {
      assert m[s + RADIUS_FIELD..s + FLOATS_PER_INSTANCE][0] == a.records[s + RADIUS_FIELD..s + FLOATS_PER_INSTANCE][0];
    }
    ValidFits(a, |a.entities|);
    assert a.entities[..|a.entities|] == a.entities;
    WallsEach(m, a.entities, width, height, k);
  }

  /** The schedule keeps the magnitude of every velocity component. */
  lemma ScheduleKeepsSpeed(a: Arena, dt: real, width: int, height: int, k: nat)
    requires ArenaValid(a) && k < a.count
    ensures var b := Schedule(a, dt, width, height);
            && k < |b.entities|
            && Abs(b.entities[k].velocity.x) == Abs(a.entities[k].velocity.x)
            && Abs(b.entities[k].velocity.y) == Abs(a.entities[k].velocity.y)
  {
    var s := RecordStart(k);
    var e := a.entities[k];
    var m := Moved(a, dt);
    ScheduleEach(a, dt, width, height, k);
  }

  // ---------------------------------------------------------------------------
  // Whole frames
  // ---------------------------------------------------------------------------

  /** Record `k` exists and holds the radius the spawn loop gives every particle. */
  predicate HasSpawnRadius(records: seq<real>, k: nat)
  {
    RecordStart(k) + FLOATS_PER_INSTANCE <= |records| && records[RecordStart(k) + RADIUS_FIELD] == PARTICLE_RADIUS
  }

  /** Every particle has the radius the spawn loop gives it. */
  predicate SpawnRadius(a: Arena)
  {
    forall k | 0 <= k < a.count :: HasSpawnRadius(a.records, k)
  }

  /** Record `k` exists and its circle lies inside the `width` by `height` window. */
  predicate InsideWindow(records: seq<real>, k: nat, width: int, height: int)
  {
    var s := RecordStart(k);
    && s + FLOATS_PER_INSTANCE <= |records|
    && records[s + RADIUS_FIELD] <= records[s + X_FIELD] <= width as real - records[s + RADIUS_FIELD]
    && records[s + RADIUS_FIELD] <= records[s + Y_FIELD] <= height as real - records[s + RADIUS_FIELD]
  }

  /** A spawning step gives the new particle the standard radius and keeps the others'. */
  lemma SpawnNextRadius(a: Arena, d: Draw)
    requires ArenaValid(a) && SpawnRadius(a)
    ensures ArenaValid(SpawnNext(a, d)) && SpawnRadius(SpawnNext(a, d))
  {
    SpawnNextOutcome(a, d);
    var b := SpawnNext(a, d);
    forall k | 0 <= k < b.count
      ensures HasSpawnRadius(b.records, k)
    {
      RecordsOrdered(k, b.count);
      if k < a.count {
        assert HasSpawnRadius(a.records, k);
      }
    }
  }

  /** A run of spawning steps keeps every radius standard. */
  lemma {:induction false} SpawnAllRadius(a: Arena, ds: seq<Draw>)
    requires ArenaValid(a) && SpawnRadius(a)
    ensures ArenaValid(SpawnAll(a, ds)) && SpawnRadius(SpawnAll(a, ds))
    decreases |ds|
  {
    if |ds| > 0 {
      SpawnAllRadius(a, ds[..|ds| - 1]);
      SpawnNextRadius(SpawnAll(a, ds[..|ds| - 1]), ds[|ds| - 1]);
    }
  }

  /** One frame: the spawn loop while the mouse button is held, then the schedule. */
  function Frame(a: Arena, mouseDown: bool, ds: seq<Draw>, dt: real, width: int, height: int): (b: Arena)
    requires ArenaValid(a) && |ds| == SPAWN_STEPS_PER_FRAME
    ensures ArenaValid(b)
    ensures a.count <= b.count <= a.count + SPAWN_STEPS_PER_FRAME
    ensures !mouseDown ==> b.count == a.count && b.capacity == a.capacity
  {
    SpawnAllAccount(a, ds);
    Schedule(if mouseDown then SpawnAll(a, ds) else a, dt, width, height)
  }

  /** After a run of the schedule, a particle of the standard radius lies inside a window at least a diameter wide and high. */
  lemma ScheduleKeepsParticleInside(a: Arena, dt: real, width: int, height: int, k: nat)
    requires ArenaValid(a) && SpawnRadius(a) && k < a.count
    requires 2.0 * PARTICLE_RADIUS <= width as real && 2.0 * PARTICLE_RADIUS <= height as real
    ensures var b := Schedule(a, dt, width, height);
            HasSpawnRadius(b.records, k) && InsideWindow(b.records, k, width, height)
  {
    var b := Schedule(a, dt, width, height);
    var s := RecordStart(k);
    var e := a.entities[k];
    var m := Moved(a, dt);
    ScheduleEach(a, dt, width, height, k);
    assert HasSpawnRadius(a.records, k);
    assert b.records[s + RADIUS_FIELD] == PARTICLE_RADIUS by {
      assert b.records[s + RADIUS_FIELD..s + FLOATS_PER_INSTANCE][0] == a.records[s + RADIUS_FIELD..s + FLOATS_PER_INSTANCE][0];
    }
  }

  /**
   * When the window is at least one particle diameter wide and high, every
   * particle lies inside it after every frame, whatever it spawned and
   * however far the particles moved.
   */
  lemma FrameKeepsParticlesInside(a: Arena, mouseDown: bool, ds: seq<Draw>, dt: real, width: int, height: int)
    requires ArenaValid(a) && SpawnRadius(a) && |ds| == SPAWN_STEPS_PER_FRAME
    requires 2.0 * PARTICLE_RADIUS <= width as real && 2.0 * PARTICLE_RADIUS <= height as real
    ensures var b := Frame(a, mouseDown, ds, dt, width, height);
            && ArenaValid(b) && SpawnRadius(b)
            && forall k | 0 <= k < b.count :: InsideWindow(b.records, k, width, height)
  {
    SpawnAllRadius(a, ds);
    var spawned := if mouseDown then SpawnAll(a, ds) else a;
    var b := Schedule(spawned, dt, width, height);
    forall k | 0 <= k < b.count
      ensures HasSpawnRadius(b.records, k) && InsideWindow(b.records, k, width, height)
    {
      ScheduleKeepsParticleInside(spawned, dt, width, height, k);
    }
  }
  /** In the window the program opens, `WIDTH` by `HEIGHT`, every frame keeps every particle inside it. */
  lemma InitialWindowKeepsParticlesInside(a: Arena, mouseDown: bool, ds: seq<Draw>, dt: real)
    requires ArenaValid(a) && SpawnRadius(a) && |ds| == SPAWN_STEPS_PER_FRAME
    ensures var b := Frame(a, mouseDown, ds, dt, WIDTH, HEIGHT);
            forall k | 0 <= k < b.count :: InsideWindow(b.records, k, WIDTH, HEIGHT)
  {
    FrameKeepsParticlesInside(a, mouseDown, ds, dt, WIDTH, HEIGHT);
  }


  // ---------------------------------------------------------------------------
  // The state main.rs updates in place
  // ---------------------------------------------------------------------------

  /** `std::ptr::copy_nonoverlapping` of `rec` into `buf` at `at`: exactly those floats are overwritten. */
  method CopyRecord(buf: array<real>, at: nat, rec: seq<real>)
    requires at + |rec| <= buf.Length
    modifies buf
    ensures buf[..] == old(buf[..at]) + rec + old(buf[at + |rec|..])
  {
    for i := 0 to |rec|
      invariant buf[..] == old(buf[..at]) + rec[..i] + old(buf[at + i..])
    {
      buf[at + i] := rec[i];
      assert rec[..i + 1] == rec[..i] + [rec[i]];
    }
  }

  /** The wall pass over the first `j + 1` entities, from the buffer the first `j` left and entity `j`'s own check. */
  lemma WallLoopStep(a: Arena, j: nat, before: seq<real>, after: seq<real>, done: seq<Entity>, v: Vec2, width: int, height: int)
    requires ArenaValid(a) && j < a.count && |a.records| <= |before|
    requires Fits(a.records, a.entities[..j + 1])
    requires before[..|a.records|] == Walls(a.records, a.entities[..j], width, height).0
    requires done == Walls(a.records, a.entities[..j], width, height).1
    requires RecordStart(j) + FLOATS_PER_INSTANCE <= |a.records|
    requires (after, v) == CheckWalls(before, j, a.entities[j].velocity, width, height)
    ensures after[..|a.records|] == Walls(a.records, a.entities[..j + 1], width, height).0
    ensures done + [a.entities[j].(velocity := v)] == Walls(a.records, a.entities[..j + 1], width, height).1
  {
    WallsStep(a.records, a.entities, j, width, height);
    CheckWallsPrefix(before, j, a.entities[j].velocity, width, height, |a.records|);
  }

  /** Checking one more entity extends the wall pass by that entity's own check. */
  lemma WallsStep(records: seq<real>, es: seq<Entity>, j: nat, width: int, height: int)
    requires j < |es| && Fits(records, es[..j + 1])
    ensures Fits(records, es[..j])
    ensures var (prev, done) := Walls(records, es[..j], width, height);
            var (next, v) := CheckWalls(prev, es[j].index, es[j].velocity, width, height);
            Walls(records, es[..j + 1], width, height) == (next, done + [es[j].(velocity := v)])
  {
    assert es[..j + 1][..j] == es[..j];
  }

  /**
   * The mutable state of the frame loop: the mapped instance buffer
   * (`instance_data_ptr`), `instance_data_offset`, `buffer_capacity`, the
   * `InstanceCount` resource and the world's entities.
   */
  class World {
    var data: array<real>
    var offset: nat
    var capacity: nat
    var count: nat
    var entities: seq<Entity>

    /** The state as a value: the written records, the capacity, the count and the entities. */
    ghost function Abstract(): Arena
      reads this, data
      requires offset <= data.Length
    {
      Arena(data[..offset], capacity, count, entities)
    }

    /** The buffer holds `capacity` records and the written part satisfies the spawn loop's invariant. */
    ghost predicate Valid()
      reads this, data
    {
      && data.Length == FLOATS_PER_INSTANCE * capacity
      && offset <= data.Length
      && ArenaValid(Abstract())
    }

    /** The state before the first frame: an empty buffer of the initial capacity and no entities. */
    constructor ()
      ensures Valid() && Abstract() == InitialArena()
    {
      data := new real[FLOATS_PER_INSTANCE * INITIAL_BUFFER_FLOAT_CAPACITY];
      offset := 0;
      capacity := INITIAL_BUFFER_FLOAT_CAPACITY;
      count := 0;
      entities := [];
    }

    /**
     * One iteration of the spawn loop: write the particle's record at
     * `offset` and push its entity while `offset / 3 < capacity`, otherwise
     * double the capacity and copy the buffer into a new one.
     */
    method SpawnStep(d: Draw)
      requires Valid()
      modifies this, data
      ensures Valid()
      ensures data == old(data) || fresh(data)
      ensures Abstract() == SpawnNext(old(Abstract()), d)
    {
      ghost var a := Abstract();
      RecordsFit(a);
      SpawnNextOutcome(a, d);
      if offset / 3 < capacity {
        var entityData := [d.cursor.x, d.cursor.y, PARTICLE_RADIUS, d.red, d.green, d.blue];
        CopyRecord(data, offset, entityData);
        assert data[..offset + FLOATS_PER_INSTANCE] == a.records + entityData;
        offset := offset + FLOATS_PER_INSTANCE;
        entities := entities + [Entity(count, d.velocity, PARTICLE_RADIUS * PARTICLE_RADIUS)];
        count := count + 1;
      } else {
        var oldCapacity := capacity;
        capacity := capacity * 2;
        data := ReallocateInstanceBuffer(data, capacity, oldCapacity);
        assert data[..offset] == data[..oldCapacity * FLOATS_PER_INSTANCE][..offset];
      }
    }

    /** The `for _ in 0..100` loop run while the left mouse button is held. */
    method SpawnBurst(ds: seq<Draw>)
      requires Valid() && |ds| == SPAWN_STEPS_PER_FRAME
      modifies this, data
      ensures Valid()
      ensures data == old(data) || fresh(data)
      ensures Abstract() == SpawnAll(old(Abstract()), ds)
    {
      ghost var a := Abstract();
      for i := 0 to SPAWN_STEPS_PER_FRAME
        invariant Valid()
        invariant data == old(data) || fresh(data)
        invariant Abstract() == SpawnAll(a, ds[..i])
      {
        SpawnStep(ds[i]);
        assert ds[..i + 1][..i] == ds[..i];
      }
      assert ds[..SPAWN_STEPS_PER_FRAME] == ds;
    }

    /** The `update_positions` system: every entity, in order, moves its own particle. */
    method UpdatePositionsSystem(dt: real)
      requires Valid()
      modifies data
      ensures Valid()
      ensures Abstract() == old(Abstract()).(records := Moved(old(Abstract()), dt))
    {
      ghost var a := Abstract();
      ValidFits(a, count);
      for i := 0 to count
        invariant Fits(a.records, a.entities[..i])
        invariant data[..offset] == Integrate(a.records, a.entities[..i], dt)
      {
        ValidFits(a, i + 1);
        assert a.entities[..i + 1][..i] == a.entities[..i];
        RecordsOrdered(i, count);
        ghost var before := data[..];
        UpdatePositions(data, entities[i].index, entities[i].velocity, dt);
        AdvancePrefix(before, i, entities[i].velocity, dt, offset);
      }
      assert a.entities[..count] == a.entities;
    }

    /** The `check_wall_collision` system: every entity, in order, checks its own particle and updates its velocity. */
    method CheckWallCollisionSystem(width: int, height: int)
      requires Valid()
      modifies data, this`entities
      ensures Valid()
      ensures Abstract() == WallPass(old(Abstract()), width, height)
    {
      ghost var a := Abstract();
      ValidFits(a, 0);
      for j := 0 to count
        invariant |entities| == count
        invariant forall k | j <= k < count :: entities[k] == a.entities[k]
        invariant Fits(a.records, a.entities[..j])
        invariant data[..offset] == Walls(a.records, a.entities[..j], width, height).0
        invariant entities[..j] == Walls(a.records, a.entities[..j], width, height).1
      {
        ValidFits(a, j + 1);
        RecordsOrdered(j, count);
        ghost var before := data[..];
        ghost var done := entities[..j];
        assert entities[j] == a.entities[j] && a.entities[j].index == j;
        var v := CheckWallCollision(data, entities[j].index, entities[j].velocity, width, height);
        WallLoopStep(a, j, before, data[..], done, v, width, height);
        entities := entities[j := entities[j].(velocity := v)];
        assert entities[..j + 1] == done + [a.entities[j].(velocity := v)];
      }
      assert entities[..count] == entities;
      assert a.entities[..count] == a.entities;
    }

    /** `schedule.execute`: `update_positions` over every entity, then `check_wall_collision` over every entity. */
    method RunSchedule(dt: real, width: int, height: int)
      requires Valid()
      modifies data, this`entities
      ensures Valid()
      ensures Abstract() == Schedule(old(Abstract()), dt, width, height)
    {
      UpdatePositionsSystem(dt);
      CheckWallCollisionSystem(width, height);
    }

    /** One frame: the spawn loop when the mouse button is held, then the schedule. */
    method RunFrame(mouseDown: bool, ds: seq<Draw>, dt: real, width: int, height: int)
      requires Valid() && |ds| == SPAWN_STEPS_PER_FRAME
      modifies this, data
      ensures Valid()
      ensures Abstract() == Frame(old(Abstract()), mouseDown, ds, dt, width, height)
    {
      if mouseDown {
        SpawnBurst(ds);
      }
      RunSchedule(dt, width, height);
    }
  }
}
