/**
 * The per-tick systems of src/systems.rs. Both work in place on the record
 * of one particle inside the flat instance buffer: `update_positions` moves
 * it by its velocity, `check_wall_collision` reflects it off the window
 * edges and clamps it back inside.
 */
module Systems {
  import opened Vectors
  import opened Config
  import opened Utils

  // ---------------------------------------------------------------------------
  // Addressing
  // ---------------------------------------------------------------------------

  /**
   * `get_current_entity`: the first three floats `[x, y, r]` of particle
   * `index`'s record. The source reads them without a bounds check.
   */
  function CurrentEntity(data: seq<real>, index: nat): (e: seq<real>)
    requires RecordStart(index) + 3 <= |data|
    ensures |e| == 3
    ensures e[0] == data[index * FLOATS_PER_INSTANCE + X_FIELD]
    ensures e[1] == data[index * FLOATS_PER_INSTANCE + Y_FIELD]
    ensures e[2] == data[index * FLOATS_PER_INSTANCE + RADIUS_FIELD]
  {
    data[RecordStart(index)..RecordStart(index) + 3]
  }

  /** The three floats of `get_current_entity` are the start of the six of `get_entity`. */
  lemma CurrentEntityStartsEntity(data: seq<real>, index: nat)
    requires RecordStart(index) + FLOATS_PER_INSTANCE <= |data|
    ensures CurrentEntity(data, index) == GetEntity(data, index)[..3]
  {
  }

  /** `|v|` for a real. */
  function Abs(v: real): real
  {
    if v < 0.0 then -v else v
  }

  // ---------------------------------------------------------------------------
  // update_positions
  // ---------------------------------------------------------------------------

  /** The buffer after particle `index` moved for `dt` seconds with velocity `vel`. */
  function Advance(data: seq<real>, index: nat, vel: Vec2, dt: real): (d: seq<real>)
    requires RecordStart(index) + 3 <= |data|
    ensures |d| == |data|
    ensures d[RecordStart(index) + RADIUS_FIELD] == data[RecordStart(index) + RADIUS_FIELD]
  {
    var b := RecordStart(index);
    data[b + X_FIELD := data[b + X_FIELD] + vel.x * dt][b + Y_FIELD := data[b + Y_FIELD] + vel.y * dt]
  }

  /** Only the particle's own `x` and `y` change, by `vel * dt`; its radius, colour and every other record stay. */
  lemma AdvanceMovesOnlyPosition(data: seq<real>, index: nat, vel: Vec2, dt: real)
    requires RecordStart(index) + 3 <= |data|
    ensures var d := Advance(data, index, vel, dt);
            && |d| == |data|
            && d[RecordStart(index) + X_FIELD] == data[RecordStart(index) + X_FIELD] + vel.x * dt
            && d[RecordStart(index) + Y_FIELD] == data[RecordStart(index) + Y_FIELD] + vel.y * dt
            && forall k | 0 <= k < |data| && k != RecordStart(index) + X_FIELD && k != RecordStart(index) + Y_FIELD ::
                 d[k] == data[k]
  {
  }

  /** A step of length zero changes nothing. */
  lemma AdvanceZero(data: seq<real>, index: nat, vel: Vec2)
    requires RecordStart(index) + 3 <= |data|
    ensures Advance(data, index, vel, 0.0) == data
  {
    var b := RecordStart(index);
    assert vel.x * 0.0 == 0.0 && vel.y * 0.0 == 0.0;
    assert Advance(data, index, vel, 0.0)[b + X_FIELD] == data[b + X_FIELD];
  }

  /** Two steps `a` then `b` with the same velocity are one step `a + b`. */
  lemma AdvanceTwice(data: seq<real>, index: nat, vel: Vec2, a: real, b: real)
    requires RecordStart(index) + 3 <= |data|
    ensures Advance(Advance(data, index, vel, a), index, vel, b) == Advance(data, index, vel, a + b)
  {
    assert vel.x * (a + b) == vel.x * a + vel.x * b;
    assert vel.y * (a + b) == vel.y * a + vel.y * b;
  }

  /** Moving two different particles gives the same buffer in either order. */
  lemma AdvanceCommutes(data: seq<real>, i: nat, vi: Vec2, j: nat, vj: Vec2, dt: real)
    requires RecordStart(i) + 3 <= |data| && RecordStart(j) + 3 <= |data|
    requires i != j
    ensures Advance(Advance(data, i, vi, dt), j, vj, dt) == Advance(Advance(data, j, vj, dt), i, vi, dt)
  {
  }

  /** Moving a particle whose record lies inside the first `n` floats only touches those floats. */
  lemma AdvancePrefix(data: seq<real>, index: nat, vel: Vec2, dt: real, n: nat)
    requires RecordStart(index) + 3 <= n <= |data|
    ensures Advance(data, index, vel, dt)[..n] == Advance(data[..n], index, vel, dt)
  {
  }

  /** `update_positions` on the buffer: `x += vx * dt` and `y += vy * dt` for particle `index`. */
  method UpdatePositions(data: array<real>, index: nat, vel: Vec2, dt: real)
    requires RecordStart(index) + 3 <= data.Length
    modifies data
    ensures data[..] == Advance(old(data[..]), index, vel, dt)
  {
    var b := RecordStart(index);
    ghost var before := data[..];
    data[b + X_FIELD] := data[b + X_FIELD] + vel.x * dt;
    data[b + Y_FIELD] := data[b + Y_FIELD] + vel.y * dt;
    AdvanceMovesOnlyPosition(before, index, vel, dt);
  }

  // ---------------------------------------------------------------------------
  // check_wall_collision
  // ---------------------------------------------------------------------------

  /**
   * One axis of the wall check for a circle at `p` with radius `r` and speed
   * `v` between `0` and `limit`: past the near wall it is put back at `r`,
   * touching or past the far wall at `limit - r`, and in both cases the
   * speed is negated; otherwise nothing changes.
   */
  function Reflect(p: real, r: real, v: real, limit: real): (pv: (real, real))
    ensures pv.1 == v || pv.1 == -v
    ensures Abs(pv.1) == Abs(v)
    ensures 2.0 * r <= limit ==> r <= pv.0 <= limit - r
  {
    if p - r < 0.0 then (r, -v)
    else if p + r >= limit then (limit - r, -v)
    else (p, v)
  }

  /** The three outcomes of one axis, each with the condition that selects it. */
  lemma ReflectCases(p: real, r: real, v: real, limit: real)
    ensures Reflect(p, r, v, limit) == (r, -v) <== p - r < 0.0
    ensures Reflect(p, r, v, limit) == (limit - r, -v) <== 0.0 <= p - r && p + r >= limit
    ensures Reflect(p, r, v, limit).1 == v <==> (v == 0.0 || (0.0 <= p - r && p + r < limit))
  {
  }

  /**
   * At the far wall the check is not idempotent: the clamped circle touches
   * the wall (`p + r == limit`), which still counts as a hit, so an
   * immediate second check negates the speed back.
   */
  lemma ReflectTwiceAtFarWall(p: real, r: real, v: real, limit: real)
    requires 0.0 <= p - r && p + r >= limit && 2.0 * r <= limit
    ensures Reflect(p, r, v, limit) == (limit - r, -v)
    ensures var (p', v') := Reflect(p, r, v, limit);
            Reflect(p', r, v', limit) == (limit - r, v)
  {
  }

  /** At the near wall a second check changes nothing, as long as the circle fits with room to spare. */
  lemma ReflectTwiceAtNearWall(p: real, r: real, v: real, limit: real)
    requires p - r < 0.0 && 2.0 * r < limit
    ensures var (p', v') := Reflect(p, r, v, limit);
            Reflect(p', r, v', limit) == (p', v') == (r, -v)
  {
  }

  /** A particle of radius 10 at `x = 2` moving left at 50 in an 800-wide window is put at `x = 10` moving right. */
  lemma ReflectExample()
    ensures Reflect(2.0, 10.0, -50.0, 800.0) == (10.0, 50.0)
  {
  }

  /** The buffer and velocity after the wall check of particle `index` in a `width` by `height` window. */
  function CheckWalls(data: seq<real>, index: nat, vel: Vec2, width: int, height: int): (res: (seq<real>, Vec2))
    requires RecordStart(index) + 3 <= |data|
    ensures |res.0| == |data|
    ensures res.0[RecordStart(index) + RADIUS_FIELD] == data[RecordStart(index) + RADIUS_FIELD]
    ensures Abs(res.1.x) == Abs(vel.x) && Abs(res.1.y) == Abs(vel.y)
  {
    var b := RecordStart(index);
    var r := data[b + RADIUS_FIELD];
    var (x, vx) := Reflect(data[b + X_FIELD], r, vel.x, width as real);
    var (y, vy) := Reflect(data[b + Y_FIELD], r, vel.y, height as real);
    (data[b + X_FIELD := x][b + Y_FIELD := y], Vec2(vx, vy))
  }

  /**
   * The wall check handles the axes independently, writes only the
   * particle's own `x` and `y` (never its radius), and keeps the magnitude
   * of each velocity component.
   */
  lemma CheckWallsOnlyPosition(data: seq<real>, index: nat, vel: Vec2, width: int, height: int)
    requires RecordStart(index) + 3 <= |data|
    ensures var (d, v) := CheckWalls(data, index, vel, width, height);
            var b := RecordStart(index);
            && |d| == |data|
            && (d[b + X_FIELD], v.x) == Reflect(data[b + X_FIELD], data[b + RADIUS_FIELD], vel.x, width as real)
            && (d[b + Y_FIELD], v.y) == Reflect(data[b + Y_FIELD], data[b + RADIUS_FIELD], vel.y, height as real)
            && forall k | 0 <= k < |data| && k != b + X_FIELD && k != b + Y_FIELD :: d[k] == data[k]
  {
  }

  /** The wall check of a particle whose record lies inside the first `n` floats only touches those floats. */
  lemma CheckWallsPrefix(data: seq<real>, index: nat, vel: Vec2, width: int, height: int, n: nat)
    requires RecordStart(index) + 3 <= n <= |data|
    ensures CheckWalls(data, index, vel, width, height).0[..n] == CheckWalls(data[..n], index, vel, width, height).0
    ensures CheckWalls(data, index, vel, width, height).1 == CheckWalls(data[..n], index, vel, width, height).1
  {
  }

  /** If the window is at least a diameter wide and high, the particle ends up inside it. */
  lemma CheckWallsInside(data: seq<real>, index: nat, vel: Vec2, width: int, height: int)
    requires RecordStart(index) + 3 <= |data|
    requires 2.0 * data[RecordStart(index) + RADIUS_FIELD] <= width as real
    requires 2.0 * data[RecordStart(index) + RADIUS_FIELD] <= height as real
    ensures var d := CheckWalls(data, index, vel, width, height).0;
            var b := RecordStart(index);
            && d[b + RADIUS_FIELD] <= d[b + X_FIELD] <= width as real - d[b + RADIUS_FIELD]
            && d[b + RADIUS_FIELD] <= d[b + Y_FIELD] <= height as real - d[b + RADIUS_FIELD]
  {
  }

  /** `check_wall_collision` on the buffer; the velocity component is returned instead of updated through a reference. */
  method CheckWallCollision(data: array<real>, index: nat, vel: Vec2, width: int, height: int)
    returns (newVel: Vec2)
    requires RecordStart(index) + 3 <= data.Length
    modifies data
    ensures (data[..], newVel) == CheckWalls(old(data[..]), index, vel, width, height)
  {
    var b := RecordStart(index);
    ghost var before := data[..];
    var vx, vy := vel.x, vel.y;
    if data[b + X_FIELD] - data[b + RADIUS_FIELD] < 0.0 {
      vx := vx * -1.0;
      data[b + X_FIELD] := data[b + RADIUS_FIELD];
    } else if data[b + X_FIELD] + data[b + RADIUS_FIELD] >= width as real {
      vx := vx * -1.0;
      data[b + X_FIELD] := width as real - data[b + RADIUS_FIELD];
    }
    assert (data[b + X_FIELD], vx) == Reflect(before[b + X_FIELD], before[b + RADIUS_FIELD], vel.x, width as real);
    if data[b + Y_FIELD] - data[b + RADIUS_FIELD] < 0.0 {
      vy := vy * -1.0;
      data[b + Y_FIELD] := data[b + RADIUS_FIELD];
    } else if data[b + Y_FIELD] + data[b + RADIUS_FIELD] >= height as real {
      vy := vy * -1.0;
      data[b + Y_FIELD] := height as real - data[b + RADIUS_FIELD];
    }
    assert (data[b + Y_FIELD], vy) == Reflect(before[b + Y_FIELD], before[b + RADIUS_FIELD], vel.y, height as real);
    CheckWallsOnlyPosition(before, index, vel, width, height);
    ghost var expected := CheckWalls(before, index, vel, width, height).0;
    assert data[..] == expected by {
      forall k | 0 <= k < data.Length
        ensures data[k] == expected[k]
      {
        if k != b + X_FIELD && k != b + Y_FIELD {
          assert data[k] == before[k];
        }
      }
    }
    newVel := Vec2(vx, vy);
  }
}
