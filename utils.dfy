/**
 * The helpers of src/utils.rs: the particle collision formula, addressing
 * a particle's record in the flat instance buffer, copying the buffer into
 * a larger one, and the index structure of the circle mesh.
 */
module Utils {
  import opened Vectors
  import opened Config

  // ---------------------------------------------------------------------------
  // Collision response
  // ---------------------------------------------------------------------------

  /**
   * The part of `v` along `d`, as a multiple of `d`: `(v . d) / |d|^2`.
   * Callers only ask for a nonzero `d`; the zero case, where the source's
   * f32 arithmetic gives NaN, is given the value 0 so that the division is
   * always defined.
   */
  function Along(v: Vec2, d: Vec2): real
  {
    if LengthSquared(d) == 0.0 then 0.0 else Dot(v, d) / LengthSquared(d)
  }

  /**
   * The new velocity of a circle at `s` moving with `v` that hits one at
   * `t` moving with `u`: `v - f ((v - u) . (s - t) / |s - t|^2) (s - t)`,
   * for a mass factor `f`. Both lines of `process_collision` have this form.
   */
  function Response(v: Vec2, u: Vec2, s: Vec2, t: Vec2, f: real): Vec2
    requires s != t
  {
    Sub(v, Scale(f * Along(Sub(v, u), Sub(s, t)), Sub(s, t)))
  }

  /**
   * `process_collision`: the velocities of two colliding circles after the
   * collision. The first velocity is the textbook one; the second
   * velocity's mass factor divides by `m1 + m1`, so it is 1 and the second
   * result is the equal-mass response whatever the masses.
   */
  function ProcessCollision(v1: Vec2, v2: Vec2, s1: Vec2, s2: Vec2, m1: real, m2: real): (r: (Vec2, Vec2))
    requires s1 != s2 && m1 + m2 != 0.0 && m1 != 0.0
    ensures r.0 == ElasticCollision(v1, v2, s1, s2, m1, m2).0
    ensures r.1 == Response(v2, v1, s2, s1, 1.0)
  {
    SelfFactor(m1);
    (Response(v1, v2, s1, s2, (2.0 * m2) / (m1 + m2)), Response(v2, v1, s2, s1, (2.0 * m1) / (m1 + m1)))
  }

  /**
   * The textbook elastic collision: the second velocity's mass factor is
   * `2 m1 / (m1 + m2)`, mirroring the first.
   */
  function ElasticCollision(v1: Vec2, v2: Vec2, s1: Vec2, s2: Vec2, m1: real, m2: real): (r: (Vec2, Vec2))
    requires s1 != s2 && m1 + m2 != 0.0
  {
    (Response(v1, v2, s1, s2, (2.0 * m2) / (m1 + m2)), Response(v2, v1, s2, s1, (2.0 * m1) / (m1 + m2)))
  }

  function Momentum(m1: real, v1: Vec2, m2: real, v2: Vec2): Vec2
  {
    Add(Scale(m1, v1), Scale(m2, v2))
  }

  lemma SelfFactor(m: real)
    requires m != 0.0
    ensures (2.0 * m) / (m + m) == 1.0
  {
  }

  /** Seen from the other circle the same collision changes velocity by the opposite multiple of `s1 - s2`. */
  lemma ResponseSwapped(v2: Vec2, v1: Vec2, s2: Vec2, s1: Vec2, f: real)
    requires s1 != s2
    ensures Response(v2, v1, s2, s1, f) == Add(v2, Scale(f * Along(Sub(v1, v2), Sub(s1, s2)), Sub(s1, s2)))
  {
    var d, e := Sub(s1, s2), Sub(s2, s1);
    assert Dot(Sub(v2, v1), e) == Dot(Sub(v1, v2), d) by {
      assert (v2.x - v1.x) * (s2.x - s1.x) == (v1.x - v2.x) * (s1.x - s2.x);
      assert (v2.y - v1.y) * (s2.y - s1.y) == (v1.y - v2.y) * (s1.y - s2.y);
    }
    assert LengthSquared(e) == LengthSquared(d) by {
      assert e.x * e.x == d.x * d.x;
      assert e.y * e.y == d.y * d.y;
    }
    var k := f * Along(Sub(v1, v2), d);
    assert k * e.x == -(k * d.x);
    assert k * e.y == -(k * d.y);
  }

  /** A response changes the velocity by a multiple of the line of centres: nothing across it changes. */
  lemma ResponseAlongLine(v: Vec2, u: Vec2, s: Vec2, t: Vec2, f: real)
    requires s != t
    ensures Cross(Sub(Response(v, u, s, t, f), v), Sub(s, t)) == 0.0
    ensures var n := Vec2(-(s.y - t.y), s.x - t.x);
            Dot(Response(v, u, s, t, f), n) == Dot(v, n)
  {
    var d := Sub(s, t);
    var k := f * Along(Sub(v, u), d);
    assert Sub(Response(v, u, s, t, f), v) == Vec2(-(k * d.x), -(k * d.y));
    assert (k * d.x) * d.y == (k * d.y) * d.x;
    var n := Vec2(-d.y, d.x);
    assert Dot(Response(v, u, s, t, f), n) == (v.x - k * d.x) * (-d.y) + (v.y - k * d.y) * d.x;
    assert (v.x - k * d.x) * (-d.y) == v.x * (-d.y) + (k * d.x) * d.y;
    assert (v.y - k * d.y) * d.x == v.y * d.x - (k * d.y) * d.x;
  }

  /** The second result does not depend on `m2` at all. */
  lemma SecondIgnoresM2(v1: Vec2, v2: Vec2, s1: Vec2, s2: Vec2, m1: real, m2: real, m2': real)
    requires s1 != s2 && m1 != 0.0 && m1 + m2 != 0.0 && m1 + m2' != 0.0
    ensures ProcessCollision(v1, v2, s1, s2, m1, m2).1 == ProcessCollision(v1, v2, s1, s2, m1, m2').1
  {
  }

  /**
   * Both velocity changes lie along the line of centres `s1 - s2`, so the
   * components perpendicular to it are unchanged.
   */
  lemma ChangesAlongLineOfCentres(v1: Vec2, v2: Vec2, s1: Vec2, s2: Vec2, m1: real, m2: real)
    requires s1 != s2 && m1 != 0.0 && m1 + m2 != 0.0
    ensures var r := ProcessCollision(v1, v2, s1, s2, m1, m2);
            && Cross(Sub(r.0, v1), Sub(s1, s2)) == 0.0
            && Cross(Sub(r.1, v2), Sub(s2, s1)) == 0.0
    ensures var r := ProcessCollision(v1, v2, s1, s2, m1, m2);
            && Dot(r.0, Vec2(-(s1.y - s2.y), s1.x - s2.x)) == Dot(v1, Vec2(-(s1.y - s2.y), s1.x - s2.x))
            && Dot(r.1, Vec2(-(s2.y - s1.y), s2.x - s1.x)) == Dot(v2, Vec2(-(s2.y - s1.y), s2.x - s1.x))
  {
    ResponseAlongLine(v1, v2, s1, s2, (2.0 * m2) / (m1 + m2));
    ResponseAlongLine(v2, v1, s2, s1, (2.0 * m1) / (m1 + m1));
  }

  /** With equal masses the changes are equal and opposite: the total velocity is kept. */
  lemma EqualMassesKeepTotal(v1: Vec2, v2: Vec2, s1: Vec2, s2: Vec2, m: real)
    requires s1 != s2 && m != 0.0
    ensures var r := ProcessCollision(v1, v2, s1, s2, m, m);
            Add(r.0, r.1) == Add(v1, v2)
  {
    SelfFactor(m);
    ResponseSwapped(v2, v1, s2, s1, 1.0);
  }

  /** One component of `m1 (a - c1 d) + m2 (b + c2 d) = m1 a + m2 b + (m2 c2 - m1 c1) d`. */
  lemma ImpulseComponent(m1: real, m2: real, a: real, b: real, c1: real, c2: real, d: real)
    ensures m1 * (a - c1 * d) + m2 * (b + c2 * d) == m1 * a + m2 * b + (m2 * c2 - m1 * c1) * d
  {
  }

  /**
   * Moving the first body by `-c1 d` and the second by `+c2 d` changes the
   * total momentum by `(m2 c2 - m1 c1) d`.
   */
  lemma MomentumOfImpulses(m1: real, v1: Vec2, m2: real, v2: Vec2, c1: real, c2: real, d: Vec2)
    ensures Momentum(m1, Sub(v1, Scale(c1, d)), m2, Add(v2, Scale(c2, d)))
            == Add(Momentum(m1, v1, m2, v2), Scale(m2 * c2 - m1 * c1, d))
  {
    ImpulseComponent(m1, m2, v1.x, v2.x, c1, c2, d.x);
    ImpulseComponent(m1, m2, v1.y, v2.y, c1, c2, d.y);
  }

  /** `MomentumOfImpulses` for a pair of velocities already known to be those impulses. */
  lemma MomentumOfPair(m1: real, v1: Vec2, m2: real, v2: Vec2, r: (Vec2, Vec2), c1: real, c2: real, d: Vec2)
    requires r.0 == Sub(v1, Scale(c1, d)) && r.1 == Add(v2, Scale(c2, d))
    ensures Momentum(m1, r.0, m2, r.1) == Add(Momentum(m1, v1, m2, v2), Scale(m2 * c2 - m1 * c1, d))
  {
    MomentumOfImpulses(m1, v1, m2, v2, c1, c2, d);
  }

  /** `m1 (2 m2 / M) a = m2 (2 m1 / M) a` for `M = m1 + m2`. */
  lemma BalancedFactors(m1: real, m2: real, a: real)
    requires m1 + m2 != 0.0
    ensures m1 * ((2.0 * m2) / (m1 + m2) * a) == m2 * ((2.0 * m1) / (m1 + m2) * a)
  {
    var q := 2.0 / (m1 + m2);
    assert (2.0 * m2) / (m1 + m2) == m2 * q;
    assert (2.0 * m1) / (m1 + m2) == m1 * q;
    assert m1 * ((m2 * q) * a) == m2 * ((m1 * q) * a);
  }

  /** A zero multiple of `d` changes nothing. */
  lemma NoImpulse(p: Vec2, c: real, d: Vec2)
    requires c == 0.0
    ensures Add(p, Scale(c, d)) == p
  {
  }

  /** Both results of the textbook response as impulses `v1 - f1 k d` and `v2 + f2 k d` along `d = s1 - s2`. */
  lemma ElasticAsImpulses(v1: Vec2, v2: Vec2, s1: Vec2, s2: Vec2, m1: real, m2: real)
    requires s1 != s2 && m1 + m2 != 0.0
    ensures var r := ElasticCollision(v1, v2, s1, s2, m1, m2);
            var k := Along(Sub(v1, v2), Sub(s1, s2));
            && r.0 == Sub(v1, Scale(((2.0 * m2) / (m1 + m2)) * k, Sub(s1, s2)))
            && r.1 == Add(v2, Scale(((2.0 * m1) / (m1 + m2)) * k, Sub(s1, s2)))
  {
    ResponseSwapped(v2, v1, s2, s1, (2.0 * m1) / (m1 + m2));
  }

  /** The textbook response keeps momentum for all masses. */
  lemma ElasticKeepsMomentum(v1: Vec2, v2: Vec2, s1: Vec2, s2: Vec2, m1: real, m2: real)
    requires s1 != s2 && m1 + m2 != 0.0
    ensures var r := ElasticCollision(v1, v2, s1, s2, m1, m2);
            Momentum(m1, r.0, m2, r.1) == Momentum(m1, v1, m2, v2)
  {
    var k := Along(Sub(v1, v2), Sub(s1, s2));
    var c1, c2 := ((2.0 * m2) / (m1 + m2)) * k, ((2.0 * m1) / (m1 + m2)) * k;
    BalancedFactors(m1, m2, k);
    assert m1 * c1 == m2 * c2;
    ElasticAsImpulses(v1, v2, s1, s2, m1, m2);
    MomentumOfPair(m1, v1, m2, v2, ElasticCollision(v1, v2, s1, s2, m1, m2), c1, c2, Sub(s1, s2));
    NoImpulse(Momentum(m1, v1, m2, v2), m2 * c2 - m1 * c1, Sub(s1, s2));
  }

  /**
   * Both results of `process_collision` as impulses along `d = s1 - s2`:
   * `v1 - f1 k d` and `v2 + k d`, for the first mass factor `f1` and the
   * projection `k` of the relative velocity on `d`.
   */
  lemma ProcessCollisionAsImpulses(v1: Vec2, v2: Vec2, s1: Vec2, s2: Vec2, m1: real, m2: real)
    requires s1 != s2 && m1 != 0.0 && m1 + m2 != 0.0
    ensures var r := ProcessCollision(v1, v2, s1, s2, m1, m2);
            var k := Along(Sub(v1, v2), Sub(s1, s2));
            && r.0 == Sub(v1, Scale(((2.0 * m2) / (m1 + m2)) * k, Sub(s1, s2)))
            && r.1 == Add(v2, Scale(k, Sub(s1, s2)))
  {
    var k := Along(Sub(v1, v2), Sub(s1, s2));
    ResponseSwapped(v2, v1, s2, s1, 1.0);
    assert 1.0 * k == k;
  }

  /**
   * What `process_collision` does to the total momentum: it adds
   * `(m2 k - m1 f1 k) (s1 - s2)`, where `f1 = 2 m2 / (m1 + m2)` is the first
   * mass factor and `k` the projection of the relative velocity on the line
   * of centres.
   */
  lemma ProcessCollisionMomentumChange(v1: Vec2, v2: Vec2, s1: Vec2, s2: Vec2, m1: real, m2: real)
    requires s1 != s2 && m1 != 0.0 && m1 + m2 != 0.0
    ensures var r := ProcessCollision(v1, v2, s1, s2, m1, m2);
            var k := Along(Sub(v1, v2), Sub(s1, s2));
            Momentum(m1, r.0, m2, r.1)
            == Add(Momentum(m1, v1, m2, v2), Scale(m2 * k - m1 * (((2.0 * m2) / (m1 + m2)) * k), Sub(s1, s2)))
  {
    ProcessCollisionAsImpulses(v1, v2, s1, s2, m1, m2);
    var k := Along(Sub(v1, v2), Sub(s1, s2));
    MomentumOfPair(m1, v1, m2, v2, ProcessCollision(v1, v2, s1, s2, m1, m2),
                   ((2.0 * m2) / (m1 + m2)) * k, k, Sub(s1, s2));
  }

  /** `m2 k - m1 (2 m2 / (m1 + m2)) k` vanishes exactly when `m2 = 0`, the masses are equal or `k = 0`. */
  lemma MomentumGapZero(m1: real, m2: real, k: real)
    requires m1 + m2 != 0.0
    ensures m2 * k - m1 * (((2.0 * m2) / (m1 + m2)) * k) == 0.0 <==> m2 == 0.0 || m1 == m2 || k == 0.0
  {
    var f1 := (2.0 * m2) / (m1 + m2);
    var g := m2 - m1 * f1;
    assert m2 * k - m1 * (f1 * k) == g * k;
    assert f1 * (m1 + m2) == 2.0 * m2;
    assert g * (m1 + m2) == m2 * (m2 - m1) by {
      assert g * (m1 + m2) == m2 * (m1 + m2) - m1 * (f1 * (m1 + m2));
    }
  }

  /** Distinct points are a nonzero vector apart. */
  lemma SubNonZero(s1: Vec2, s2: Vec2)
    requires s1 != s2
    ensures Sub(s1, s2) != Vec2(0.0, 0.0)
  {
    assert s1 == Vec2(s1.x, s1.y) && s2 == Vec2(s2.x, s2.y);
  }

  /** A nonzero vector scaled by `c` is zero exactly when `c` is. */
  lemma ScaleZero(c: real, d: Vec2)
    requires d != Vec2(0.0, 0.0)
    ensures Scale(c, d) == Vec2(0.0, 0.0) <==> c == 0.0
  {
  }

  /**
   * `process_collision` keeps the total momentum exactly when the masses are
   * equal, the second mass is zero, or the bodies do not move relative to
   * each other along the line of centres.
   */
  lemma ProcessCollisionKeepsMomentumIff(v1: Vec2, v2: Vec2, s1: Vec2, s2: Vec2, m1: real, m2: real)
    requires s1 != s2 && m1 != 0.0 && m1 + m2 != 0.0
    ensures var r := ProcessCollision(v1, v2, s1, s2, m1, m2);
            Momentum(m1, r.0, m2, r.1) == Momentum(m1, v1, m2, v2)
            <==> m1 == m2 || m2 == 0.0 || Along(Sub(v1, v2), Sub(s1, s2)) == 0.0
  {
    var k := Along(Sub(v1, v2), Sub(s1, s2));
    var c := m2 * k - m1 * (((2.0 * m2) / (m1 + m2)) * k);
    var d := Sub(s1, s2);
    var before := Momentum(m1, v1, m2, v2);
    ProcessCollisionMomentumChange(v1, v2, s1, s2, m1, m2);
    var r := ProcessCollision(v1, v2, s1, s2, m1, m2);
    assert Momentum(m1, r.0, m2, r.1) == Add(before, Scale(c, d));
    assert Scale(c, d) == Vec2(0.0, 0.0) <==> c == 0.0 by {
      SubNonZero(s1, s2);
      ScaleZero(c, d);
    }
    assert c == 0.0 <==> m2 == 0.0 || m1 == m2 || k == 0.0 by {
      MomentumGapZero(m1, m2, k);
    }
    assert Add(before, Scale(c, d)) == before <==> Scale(c, d) == Vec2(0.0, 0.0);
  }

  /** Along a unit direction, the multiple is the dot product. */
  lemma AlongUnit(v: Vec2, d: Vec2)
    requires LengthSquared(d) == 1.0
    ensures Along(v, d) == Dot(v, d)
  {
  }

  /**
   * Unequal nonzero masses that approach or separate along the line of
   * centres: `process_collision` does not keep the total momentum.
   */
  lemma ProcessCollisionLosesMomentum(v1: Vec2, v2: Vec2, s1: Vec2, s2: Vec2, m1: real, m2: real)
    requires s1 != s2 && m1 != 0.0 && m1 + m2 != 0.0
    requires m1 != m2 && m2 != 0.0 && Along(Sub(v1, v2), Sub(s1, s2)) != 0.0
    ensures var r := ProcessCollision(v1, v2, s1, s2, m1, m2);
            Momentum(m1, r.0, m2, r.1) != Momentum(m1, v1, m2, v2)
  {
    ProcessCollisionKeepsMomentumIff(v1, v2, s1, s2, m1, m2);
  }

  /** The closing speed of the head-on example, as a multiple of `s1 - s2`. */
  lemma HeadOnClosing(v1: Vec2, v2: Vec2, s1: Vec2, s2: Vec2)
    requires v1 == Vec2(1.0, 0.0) && v2 == Vec2(0.0, 0.0)
    requires s1 == Vec2(0.0, 0.0) && s2 == Vec2(1.0, 0.0)
    ensures Along(Sub(v1, v2), Sub(s1, s2)) == -1.0
  {
    assert Sub(v1, v2) == Vec2(1.0, 0.0) && Sub(s1, s2) == Vec2(-1.0, 0.0);
    AlongUnit(Vec2(1.0, 0.0), Vec2(-1.0, 0.0));
  }

  /**
   * A head-on hit of a unit-mass circle moving at speed 1 on a resting
   * circle of mass 3 changes the total momentum under `process_collision`
   * (the elastic formula keeps it, by `ElasticKeepsMomentum`).
   */
  lemma ProcessCollisionMomentumExample(v1: Vec2, v2: Vec2, s1: Vec2, s2: Vec2, m1: real, m2: real)
    requires v1 == Vec2(1.0, 0.0) && v2 == Vec2(0.0, 0.0)
    requires s1 == Vec2(0.0, 0.0) && s2 == Vec2(1.0, 0.0)
    requires m1 == 1.0 && m2 == 3.0
    ensures var r := ProcessCollision(v1, v2, s1, s2, m1, m2);
            Momentum(m1, r.0, m2, r.1) != Momentum(m1, v1, m2, v2)
  {
    HeadOnClosing(v1, v2, s1, s2);
    ProcessCollisionLosesMomentum(v1, v2, s1, s2, m1, m2);
  }

  // ---------------------------------------------------------------------------
  // Records of the instance buffer
  // ---------------------------------------------------------------------------

  /** The float offset at which particle `index`'s record starts. */
  function RecordStart(index: nat): nat
  {
    index * FLOATS_PER_INSTANCE
  }

  /** The particle whose record holds float `offset`. */
  function RecordOf(offset: nat): (index: nat)
    ensures RecordStart(index) <= offset < RecordStart(index) + FLOATS_PER_INSTANCE
  {
    offset / FLOATS_PER_INSTANCE
  }

  /** Records of different particles do not overlap, so each float belongs to one record. */
  lemma RecordsDisjoint(i: nat, j: nat, offset: nat)
    requires RecordStart(i) <= offset < RecordStart(i) + FLOATS_PER_INSTANCE
    requires RecordStart(j) <= offset < RecordStart(j) + FLOATS_PER_INSTANCE
    ensures i == j
  {
  }

  /**
   * `get_entity`: the six floats `[x, y, r, red, green, blue]` of particle
   * `index`. The source does not check that they lie inside the buffer.
   */
  function GetEntity(data: seq<real>, index: nat): (e: seq<real>)
    requires RecordStart(index) + FLOATS_PER_INSTANCE <= |data|
    ensures |e| == FLOATS_PER_INSTANCE
    ensures forall f | 0 <= f < FLOATS_PER_INSTANCE :: e[f] == data[RecordStart(index) + f]
  {
    data[RecordStart(index)..RecordStart(index) + FLOATS_PER_INSTANCE]
  }

  /** Cutting the buffer into records and joining them back gives the buffer. */
  function Records(data: seq<real>, n: nat): seq<seq<real>>
    requires RecordStart(n) <= |data|
  {
    if n == 0 then [] else Records(data, n - 1) + [GetEntity(data, n - 1)]
  }

  function Concat(rs: seq<seq<real>>): seq<real>
  {
    if rs == [] then [] else Concat(rs[..|rs| - 1]) + rs[|rs| - 1]
  }

  lemma {:induction false} RecordsCoverPrefix(data: seq<real>, n: nat)
    requires RecordStart(n) <= |data|
    ensures Concat(Records(data, n)) == data[..RecordStart(n)]
  {
    if n > 0 {
      RecordsCoverPrefix(data, n - 1);
      var rs := Records(data, n);
      assert rs[..|rs| - 1] == Records(data, n - 1);
      assert data[..RecordStart(n)] == data[..RecordStart(n - 1)] + GetEntity(data, n - 1);
    }
  }

  // ---------------------------------------------------------------------------
  // Growing the instance buffer
  // ---------------------------------------------------------------------------

  /**
   * The byte size handed to the GL calls is `capacity * 24` (four bytes per
   * float, six floats per record), cast to a 32-bit signed size. Starting
   * from the initial capacity it fits for six doublings; the seventh asks
   * for more than the largest 32-bit size.
   */
  lemma StorageSizeLimit()
    ensures INITIAL_BUFFER_FLOAT_CAPACITY * 64 * (4 * FLOATS_PER_INSTANCE) <= 0x7fff_ffff
    ensures INITIAL_BUFFER_FLOAT_CAPACITY * 128 * (4 * FLOATS_PER_INSTANCE) > 0x7fff_ffff
  {
  }

  /**
   * The copy performed by `reallocate_instance_vbo`: a new buffer of
   * `bufferCapacity` records whose first `oldCapacity` records are those of
   * the old one. The caller then uses the returned buffer in place of the
   * old one.
   */
  method ReallocateInstanceBuffer(current: array<real>, bufferCapacity: nat, oldCapacity: nat)
    returns (newBuf: array<real>)
    requires bufferCapacity >= oldCapacity
    requires current.Length >= oldCapacity * FLOATS_PER_INSTANCE
    ensures fresh(newBuf)
    ensures newBuf.Length == bufferCapacity * FLOATS_PER_INSTANCE
    ensures newBuf[..oldCapacity * FLOATS_PER_INSTANCE] == current[..oldCapacity * FLOATS_PER_INSTANCE]
  {
    newBuf := new real[bufferCapacity * FLOATS_PER_INSTANCE];
    var n := oldCapacity * FLOATS_PER_INSTANCE;
    for i := 0 to n
      invariant newBuf[..i] == current[..i]
    {
      newBuf[i] := current[i];
    }
  }

  // ---------------------------------------------------------------------------
  // The circle mesh
  // ---------------------------------------------------------------------------

  /** The fan triangles `[0, i, i + 1]` for `i < n`, in order. */
  function FanIndices(n: nat): (ix: seq<nat>)
    ensures |ix| == 3 * n
  {
    if n == 0 then [] else FanIndices(n - 1) + [0, n - 1, n]
  }

  /** The index list of `generate_circle(pointCount)`: the fan, then the closing triangle `[0, pointCount, 1]`. */
  function CircleIndices(pointCount: nat): (ix: seq<nat>)
    ensures |ix| == 3 * pointCount + 3 && ix[3 * pointCount..] == [0, pointCount, 1]
    ensures 1 <= pointCount ==> forall k | 0 <= k < |ix| :: ix[k] <= pointCount
  {
    FanBounded(pointCount);
    FanIndices(pointCount) + [0, pointCount, 1]
  }

  /**
   * The vertex list of `generate_circle(pointCount)`: the centre, then one
   * rim point per step. `rim(i)` stands for `(cos(i * angle), sin(i * angle))`.
   */
  function CircleVertices(pointCount: nat, rim: nat -> Vec2): (vs: seq<real>)
    ensures |vs| == 2 * (pointCount + 1) && vs[..2] == [0.0, 0.0]
  {
    if pointCount == 0 then [0.0, 0.0]
    else CircleVertices(pointCount - 1, rim) + [rim(pointCount - 1).x, rim(pointCount - 1).y]
  }

  lemma {:induction false} FanTriangle(n: nat, i: nat)
    requires i < n
    ensures FanIndices(n)[3 * i..3 * i + 3] == [0, i, i + 1]
  {
    if i < n - 1 {
      FanTriangle(n - 1, i);
      assert FanIndices(n)[..3 * (n - 1)] == FanIndices(n - 1);
      assert FanIndices(n)[3 * i..3 * i + 3] == FanIndices(n - 1)[3 * i..3 * i + 3];
    } else {
      assert FanIndices(n)[3 * i..3 * i + 3] == [0, n - 1, n];
    }
  }

  /** The index list has `3 * pointCount + 3` entries: triangle `i` is `[0, i, i + 1]`, the last one `[0, pointCount, 1]`. */
  lemma CircleTriangles(pointCount: nat)
    ensures |CircleIndices(pointCount)| == 3 * pointCount + 3
    ensures forall i | 0 <= i < pointCount :: CircleIndices(pointCount)[3 * i..3 * i + 3] == [0, i, i + 1]
    ensures CircleIndices(pointCount)[3 * pointCount..] == [0, pointCount, 1]
  {
    var ix := CircleIndices(pointCount);
    forall i | 0 <= i < pointCount ensures ix[3 * i..3 * i + 3] == [0, i, i + 1] {
      FanTriangle(pointCount, i);
      assert ix[3 * i..3 * i + 3] == FanIndices(pointCount)[3 * i..3 * i + 3];
    }
  }

  lemma {:induction false} FanBounded(n: nat)
    ensures forall k | 0 <= k < |FanIndices(n)| :: FanIndices(n)[k] <= n
  {
    if n > 0 {
      FanBounded(n - 1);
    }
  }

  /** The centre comes first and there are `2 * (pointCount + 1)` floats: the centre and one per rim point. */
  lemma {:induction false} CircleVertexLayout(pointCount: nat, rim: nat -> Vec2)
    ensures |CircleVertices(pointCount, rim)| == 2 * (pointCount + 1)
    ensures CircleVertices(pointCount, rim)[..2] == [0.0, 0.0]
    ensures forall i | 0 <= i < pointCount ::
              CircleVertices(pointCount, rim)[2 + 2 * i] == rim(i).x && CircleVertices(pointCount, rim)[3 + 2 * i] == rim(i).y
  {
    if pointCount > 0 {
      CircleVertexLayout(pointCount - 1, rim);
    }
  }

  /**
   * The mesh the program draws, `generate_circle(POINT_COUNT)`: nine
   * triangles (27 indices) over nine vertices (18 floats), every index
   * naming one of them.
   */
  lemma ProgramCircleMesh(rim: nat -> Vec2)
    ensures |CircleIndices(POINT_COUNT)| == 27 && |CircleVertices(POINT_COUNT, rim)| == 18
    ensures forall k | 0 <= k < 27 :: 2 * CircleIndices(POINT_COUNT)[k] + 1 < 18
  {
    IndicesNameVertices(POINT_COUNT, rim);
  }

  /**
   * For at least one rim point every index names an existing vertex: indices
   * run up to `pointCount` and there are `pointCount + 1` vertices.
   */
  lemma IndicesNameVertices(pointCount: nat, rim: nat -> Vec2)
    requires pointCount >= 1
    ensures forall k | 0 <= k < |CircleIndices(pointCount)| ::
              CircleIndices(pointCount)[k] <= pointCount && 2 * CircleIndices(pointCount)[k] + 1 < |CircleVertices(pointCount, rim)|
  {
    FanBounded(pointCount);
    CircleVertexLayout(pointCount, rim);
    var ix := CircleIndices(pointCount);
    forall k | 0 <= k < |ix| ensures ix[k] <= pointCount {
      if k < 3 * pointCount {
        assert ix[k] == FanIndices(pointCount)[k];
      }
    }
  }

  /** With no rim points the closing triangle names vertex 1, which does not exist. */
  lemma EmptyCircleNamesMissingVertex(rim: nat -> Vec2)
    ensures CircleIndices(0) == [0, 0, 1] && |CircleVertices(0, rim)| == 2
  {
  }
}
