/** What the game takes from its graphics library: the sizes of the sprite
    images and the pixel-mask overlap test. Both are inputs to the model;
    nothing here is computed from image files. */
module Sprites {
  /** Width of the game window. */
  const ScreenWidth: int := 500

  /** Index into the three bird animation images. */
  type Frame = i: int | 0 <= i < 3

  /** The two images of a pipe pair: the flipped top pipe and the bottom pipe. */
  datatype PipeEnd = Top | Bottom

  /** `overlap(f, e, dx, dy)` holds when the opaque pixels of bird image `f`
      meet those of pipe image `e` placed at offset (dx, dy) from the bird's
      top-left corner. The mask library is opaque to the model, so every
      operation that needs it takes it as a parameter. */
  type MaskOverlap = (Frame, PipeEnd, int, int) -> bool

  /** Sprite dimensions after the 2x scaling the game applies at load time. */
  datatype Assets = Assets(
    pipeWidth: int,
    pipeHeight: int,
    groundWidth: int,
    birdHeight: Frame -> int)
  {
    /** Every image has a positive size. */
    predicate Valid() {
      && pipeWidth > 0
      && pipeHeight > 0
      && groundWidth > 0
      && forall f: Frame :: birdHeight(f) > 0
    }
  }

  /** The mask test can report an overlap only where the two images share a
      pixel row: pipe image `e`, whose top edge is `dy` below the bird's,
      starts above the bird's bottom edge and ends below its top edge. */
  ghost predicate OverlapNeedsSharedRow(overlap: MaskOverlap, a: Assets) {
    forall f, e, dx, dy :: overlap(f, e, dx, dy) ==> dy < a.birdHeight(f) && 0 < dy + a.pipeHeight
  }
}
