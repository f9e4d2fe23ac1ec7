/** The game configuration shared by every part of the simulation. */
module GameConfig {

  /** Length of one physics tick, in seconds (30 ms). */
  const TimeUnit: real := 30.0 / 1000.0

  /** Canvas width and height, in pixels. */
  const Width: real := 512.0
  const Height: real := 512.0

  /** The gravitational constant used by surface friction. */
  const G: real := 10.0
}
