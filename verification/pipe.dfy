/** A pipe pair: a top pipe hanging down to the gap height and a bottom pipe
    starting a fixed distance below it, scrolling left at a constant speed. */
module Pipes {
  import opened Sprites
  import opened PyRound
  import opened BirdPhysics

  /** Vertical size of the gap between the two pipes. */
  const Gap: int := 200
  /** Pixels a pipe scrolls left per tick. */
  const PipeSpeed: int := 5
  /** Bounds of `randrange(50, 475)`: the lower one included, the upper not. */
  const MinGapHeight: int := 50
  const MaxGapHeight: int := 475

  /** `height` is where the gap starts; `topPos` and `bottomPos` are the top
      edges of the top and bottom pipe images; `passed` records that the bird
      has got past this pipe. */
  datatype Pipe = Pipe(x: int, height: int, topPos: int, bottomPos: int, passed: bool)

  /** A value `randrange(50, 475)` can return. */
  predicate ValidHeight(h: int) {
    MinGapHeight <= h < MaxGapHeight
  }

  /** The shape every pipe has once its height is set: the top pipe ends at the
      gap height and the bottom pipe starts `Gap` below it. */
  predicate WellShaped(p: Pipe, pipeHeight: int) {
    && ValidHeight(p.height)
    && p.topPos + pipeHeight == p.height
    && p.bottomPos == p.height + Gap
  }

  /** `Pipe.set_height` with `h` the value drawn by `randrange(50, 475)`. */
  function SetHeight(p: Pipe, h: int, pipeHeight: int): (r: Pipe)
    requires ValidHeight(h)
    ensures WellShaped(r, pipeHeight) && r.height == h
    ensures r.bottomPos - (r.topPos + pipeHeight) == Gap
    ensures r.x == p.x && r.passed == p.passed
  {
    p.(height := h, topPos := h - pipeHeight, bottomPos := h + Gap)
  }

  /** `Pipe(x)`: not yet passed, with a freshly drawn gap height `h`. */
  function NewPipe(x: int, h: int, pipeHeight: int): (p: Pipe)
    requires ValidHeight(h)
    ensures p.x == x && !p.passed && p.height == h
    ensures WellShaped(p, pipeHeight)
  {
    SetHeight(Pipe(x, 0, 0, 0, false), h, pipeHeight)
  }

  /** `Pipe.move`: five pixels left, nothing else changes. */
  function MovePipe(p: Pipe): (r: Pipe)
    ensures r.x == p.x - PipeSpeed
    ensures r.height == p.height && r.topPos == p.topPos
    ensures r.bottomPos == p.bottomPos && r.passed == p.passed
  {
    p.(x := p.x - PipeSpeed)
  }

  /** The pipe after `n` moves. */
  function ScrollPipe(p: Pipe, n: nat): Pipe {
    if n == 0 then p else MovePipe(ScrollPipe(p, n - 1))
  }

  /** `n` moves shift the pipe exactly 5*n left whatever its height: forty
      moves take it 200 pixels. */
  lemma {:induction false} ScrollPipeDistance(p: Pipe, n: nat)
    ensures ScrollPipe(p, n) == p.(x := p.x - PipeSpeed * n)
  {
    if n > 0 {
      ScrollPipeDistance(p, n - 1);
    }
  }

  /** Top edge of one of the two pipe images. */
  function EndPos(p: Pipe, e: PipeEnd): int {
    match e
    case Top => p.topPos
    case Bottom => p.bottomPos
  }

  /** The bird's mask meets the mask of pipe image `e`, placed at that image's
      offset from the bird's position rounded to whole pixels. */
  predicate EndOverlaps(p: Pipe, b: Bird, overlap: MaskOverlap, e: PipeEnd) {
    overlap(b.frame, e, p.x - b.x, EndPos(p, e) - RoundHalfEven(b.y))
  }

  /** `Pipe.collide`: the mask of the bird's current image against each pipe
      image, at the offset of that image from the bird's rounded position. */
  function Collide(p: Pipe, b: Bird, overlap: MaskOverlap): (hit: bool)
    ensures hit <==> exists e: PipeEnd :: EndOverlaps(p, b, overlap, e)
  {
    var dx := p.x - b.x;
    var dy := RoundHalfEven(b.y);
    assert EndOverlaps(p, b, overlap, Top) == overlap(b.frame, Top, dx, p.topPos - dy);
    assert EndOverlaps(p, b, overlap, Bottom) == overlap(b.frame, Bottom, dx, p.bottomPos - dy);
    overlap(b.frame, Top, dx, p.topPos - dy) || overlap(b.frame, Bottom, dx, p.bottomPos - dy)
  }

  /** Collision sees only the bird's image, its x and its rounded y: tilt,
      speed and the animation counter play no part. */
  lemma CollideIgnoresTilt(p: Pipe, b1: Bird, b2: Bird, overlap: MaskOverlap)
    requires b1.frame == b2.frame && b1.x == b2.x
    requires RoundHalfEven(b1.y) == RoundHalfEven(b2.y)
    ensures Collide(p, b1, overlap) == Collide(p, b2, overlap)
  {
  }

  /** A bird whose rounded position puts its whole image inside the gap hits
      neither pipe: the top pipe ends at or above its top edge and the bottom
      pipe starts at or below its bottom edge. */
  lemma GapIsClear(p: Pipe, b: Bird, overlap: MaskOverlap, a: Assets)
    requires OverlapNeedsSharedRow(overlap, a) && WellShaped(p, a.pipeHeight)
    requires p.height <= RoundHalfEven(b.y)
    requires RoundHalfEven(b.y) + a.birdHeight(b.frame) <= p.height + Gap
    ensures !Collide(p, b, overlap)
  {
  }

  /** The check the unit test applies after `set_height`: strictly above 50. */
  predicate TestAcceptsHeightAsWritten(p: Pipe) {
    MinGapHeight < p.height < MaxGapHeight
  }

  /** The check the test evidently means: the range `randrange` draws from. */
  predicate TestAcceptsHeight(p: Pipe) {
    MinGapHeight <= p.height < MaxGapHeight
  }

  /** A draw of exactly 50, which `randrange(50, 475)` can return, makes a
      correct pipe that the test as written rejects. */
  lemma TestRejectsLowestDraw(pipeHeight: int)
    ensures ValidHeight(MinGapHeight)
    ensures WellShaped(SetHeight(NewPipe(300, 100, pipeHeight), MinGapHeight, pipeHeight), pipeHeight)
    ensures !TestAcceptsHeightAsWritten(SetHeight(NewPipe(300, 100, pipeHeight), MinGapHeight, pipeHeight))
  {
  }

  /** Every height `set_height` can draw passes the corrected test. */
  lemma TestAcceptsEveryDraw(p: Pipe, h: int, pipeHeight: int)
    requires ValidHeight(h)
    ensures TestAcceptsHeight(SetHeight(p, h, pipeHeight))
  {
  }
}
