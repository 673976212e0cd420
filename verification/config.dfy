/** The tuning constants of the elimination animation. */
module Config {

  /** Grid shape: 4 columns by 4 rows, so at most 16 images take part in a round. */
  const GRID_COLS: nat := 4
  const GRID_ROWS: nat := 4
  const GRID_COUNT: nat := GRID_COLS * GRID_ROWS

  /** Opacity of a fresh (or winning) item. */
  const OPAQUE: int := 255

  /** The fade floor is `int(255 * 0.1)`: the truncation of 25.5, that is 25. */
  const FADE_ALPHA: int := (255.0 * 0.1).Floor
  /** Opacity units an eliminated item loses per frame. */
  const FADE_SPEED: int := 12

  /** Per-frame easing rates for position and scale, and the winner's enlargement. */
  const MOVE_SPEED: real := 0.12
  const SCALE_SPEED: real := 0.08
  const FINAL_SCALE: real := 4.0

  /** Pixel spacing between cells, and between the grid and the window border. */
  const PADDING: int := 8
  const EDGE_PADDING: int := 24

  /** Window size at start-up. */
  const START_WIDTH: nat := 1200
  const START_HEIGHT: nat := 800

  /** Box size an item carries before the first layout. */
  const INITIAL_BOX: int := 100

  /** Milliseconds between two eliminations. */
  const ELIMINATION_DELAY: int := 200
}
