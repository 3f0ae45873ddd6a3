/**
 * The configuration constants the game core reads. Those defined in
 * ring_leader.py are written out; those that live in bubble.py (board width,
 * bubble diameter and padding, the bullet penalty, the falling-bubble reward
 * and gravity) are fields of a Config value, since their numeric values are
 * not part of this model. Bubble_Grid.MATCH_LENGTH is the one exception: it is
 * fixed here at 4, the run length the game's instructions state.
 */
module Settings {
  /** Height of the screen in bubbles (BOARD_HEIGHT). */
  const BOARD_HEIGHT: nat := 20

  /** Minimum straight run that is a match; also the number of fast rows at a level start. */
  const MATCH_LENGTH: nat := 4

  /** next_level_points when a game starts. */
  const FIRST_LEVEL_POINTS: int := 500

  /** Extra points needed per level: next_level_points += LEVEL_STEP * level. */
  const LEVEL_STEP: int := 250

  /** The grid scrolls this many times faster while speed_rows is non-zero. */
  const FAST_ROW_FACTOR: int := 16

  datatype Config = Config(
    boardWidth: nat,          // Bubble_Grid.BOARD_WIDTH
    diameter: nat,            // Bubble.BUBBLE_DIAMETER
    padding: nat,             // Bubble_Grid.BUBBLE_PADDING
    lostBulletPenalty: int,   // Bullet.LOST_BULLET_PENALTY
    fallingBubblePoints: int, // Dropper.FALLING_BUBBLE_POINTS
    gravity: int)             // Dropper.BUBBLE_GRAVITY
  {
    /** Every row has at least one cell (the grid tick reads cell [0]) and fallers earn points. */
    predicate Valid() {
      boardWidth >= 1 && fallingBubblePoints >= 0
    }

    /** HEIGHT: screen height in pixels. */
    function Height(): int {
      diameter * BOARD_HEIGHT + padding * BOARD_HEIGHT
    }

    /** HIT_GROW: growth of the ship when a falling bubble strikes it. */
    function HitGrow(): int {
      diameter / 4
    }

    /** Vertical distance within which a falling bubble lands on a grid cell. */
    function LandingReach(): int {
      diameter + padding
    }

    /** The bottom row is retired once its y passes this line. */
    function RetireLine(): int {
      Height() + diameter / 2
    }

    /** A new top row is added once the top row's y reaches this line. */
    function SpawnLine(): int {
      diameter / 2 + padding
    }
  }
}
