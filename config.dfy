/** The constants of src/main.rs that the core uses. */
module Config {

  /** Initial window size in pixels; the wall check uses the current size. */
  const WIDTH: nat := 800
  const HEIGHT: nat := 800

  /** Rim points of the circle mesh. */
  const POINT_COUNT: nat := 8

  /** Floats per particle record: x, y, radius, red, green, blue. */
  const FLOATS_PER_INSTANCE: nat := 6

  /** Initial value of `buffer_capacity`; the buffer holds this many records. */
  const INITIAL_BUFFER_FLOAT_CAPACITY: nat := 1_000_000

  /** Spawn-or-grow steps per frame while the left mouse button is held. */
  const SPAWN_STEPS_PER_FRAME: nat := 100

  /** Radius of every spawned particle. */
  const PARTICLE_RADIUS: real := 10.0

  /** Float offsets of the fields inside a record. */
  const X_FIELD: nat := 0
  const Y_FIELD: nat := 1
  const RADIUS_FIELD: nat := 2
}
