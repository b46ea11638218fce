/** The scrolling ground: two copies of the ground image side by side, each
    jumping to the right of the other once it has scrolled off the left edge. */
module GroundBelt {
  import opened Sprites

  /** Pixels the ground scrolls left per tick. */
  const GroundSpeed: int := 5

  /** `x1` and `x2` are the left edges of the two tiles; `y` is the top of the
      ground, the level the bird must stay above. */
  datatype Ground = Ground(y: int, x1: int, x2: int)

  function Min(a: int, b: int): int { if a <= b then a else b }

  /** The belt shape: the two tiles sit exactly one tile width apart, and the
      leftmost one starts in [-width, 0]. */
  predicate Belt(g: Ground, width: int) {
    && (g.x2 == g.x1 + width || g.x1 == g.x2 + width)
    && -width <= Min(g.x1, g.x2) <= 0
  }

  /** Pixel column `px` is drawn by the tile whose left edge is `left`. */
  predicate OnTile(px: int, left: int, width: int) {
    left <= px < left + width
  }

  /** `Ground(y)`: the first tile at 0, the second right after it. */
  function NewGround(y: int, width: int): (g: Ground)
    ensures g.y == y && g.x1 == 0 && g.x2 == width
    ensures width >= 0 ==> Belt(g, width)
  {
    Ground(y, 0, width)
  }

  /** `Ground.move`: both tiles scroll left; a tile whose right edge has passed
      the left screen edge is put right after the other one. The second test
      sees the first tile's already updated position. */
  function MoveGround(g: Ground, width: int): (r: Ground)
    ensures r.y == g.y
    ensures Belt(g, width) && width >= GroundSpeed ==> Belt(r, width)
    ensures Belt(g, width) && width >= GroundSpeed ==>
              r.x1 == g.x1 - GroundSpeed || r.x2 == g.x2 - GroundSpeed
    ensures Belt(g, width) && width >= GroundSpeed ==>
              r.x1 - (g.x1 - GroundSpeed) in {0, 2 * width} &&
              r.x2 - (g.x2 - GroundSpeed) in {0, 2 * width}
    ensures Belt(g, width) && width >= GroundSpeed ==>
              && (r.x1 != g.x1 - GroundSpeed <==> g.x1 - GroundSpeed + width < 0)
              && (r.x2 != g.x2 - GroundSpeed <==> g.x2 - GroundSpeed + width < 0)
  {
    var x1 := g.x1 - GroundSpeed;
    var x2 := g.x2 - GroundSpeed;
    var x1' := if x1 + width < 0 then x2 + width else x1;
    var x2' := if x2 + width < 0 then x1' + width else x2;
    Ground(g.y, x1', x2')
  }

  /** The ground after `n` ticks. */
  function Scroll(g: Ground, width: int, n: nat): Ground {
    if n == 0 then g else MoveGround(Scroll(g, width, n - 1), width)
  }

  /** The belt keeps its shape however long it scrolls. */
  lemma {:induction false} ScrollKeepsBelt(y: int, width: int, n: nat)
    requires width >= GroundSpeed
    ensures Belt(Scroll(NewGround(y, width), width, n), width)
  {
    if n > 0 {
      ScrollKeepsBelt(y, width, n - 1);
    }
  }

  /** With tiles at least as wide as the window, the belt leaves no column of
      the window uncovered. */
  lemma BeltCoversScreen(g: Ground, width: int)
    requires Belt(g, width) && width >= ScreenWidth
    ensures forall px :: 0 <= px < ScreenWidth ==>
              OnTile(px, g.x1, width) || OnTile(px, g.x2, width)
  {
  }
}
