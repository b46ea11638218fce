/** The bird: a kinematic flight arc restarted by every flap, a tilt angle that
    follows the arc, and a wing-flap animation counter advanced once per drawn
    frame. Positions and speeds are multiples of one half, so `real` holds
    them exactly. */
module BirdPhysics {
  import opened Sprites

  /** Steepest nose-up tilt, in degrees. */
  const MaxRotation: int := 25
  /** Degrees the nose drops per tick while diving. */
  const RotationSpeed: int := 20
  /** The nose keeps dropping only while the tilt is above this. */
  const DiveLimit: int := -90
  /** At or below this tilt the wings stop flapping. */
  const GlideAngle: int := -80
  /** Drawn frames per wing position. */
  const AnimationTime: int := 5
  /** Vertical speed a flap sets; negative is upwards. */
  const JumpSpeed: real := -10.5
  /** Coefficient of t*t in the displacement formula. */
  const Gravity: real := 1.5
  /** Largest downward displacement applied in one tick. */
  const MaxDrop: real := 16.0
  /** Extra upward push added to every upward displacement. */
  const UpwardSnap: real := 2.0
  /** The bird keeps its nose up until it is this far below its last flap. */
  const LevelOffDepth: real := 50.0

  /** Wing positions over one flap, each held for `AnimationTime` frames. */
  const FlapCycle: seq<Frame> := [0, 1, 2, 1]

  /** `height` is the y at the last flap; `time` counts ticks since then;
      `imageCount` and `frame` are the animation counter and the image it
      selected at the last draw (the image the collision mask comes from). */
  datatype Bird = Bird(
    x: int,
    y: real,
    angle: int,
    speed: real,
    height: real,
    time: nat,
    imageCount: nat,
    frame: Frame)

  /** The tilts the bird can show: 25, 5, ..., -95 (dropping 20 at a time from
      the nose-up tilt) or 0, -20, ..., -100 (dropping from the level start). */
  predicate ReachableAngle(a: int) {
    && -100 <= a <= MaxRotation
    && (a % RotationSpeed == 5 || (a % RotationSpeed == 0 && a <= 0))
  }

  /** What holds of the bird at every tick of a game. */
  predicate BirdInvariant(b: Bird) {
    && ReachableAngle(b.angle)
    && b.imageCount <= 4 * AnimationTime
    && (b.speed == 0.0 || b.speed == JumpSpeed)
  }

  /** `Bird(x, y)`: at rest, level, showing the first image. */
  function NewBird(x: int, y: int): (b: Bird)
    ensures b.x == x && b.y == y as real
    ensures b.angle == 0 && b.height == y as real
    ensures b.speed == 0.0 && b.time == 0 && b.imageCount == 0 && b.frame == 0
    ensures BirdInvariant(b)
  {
    Bird(x, y as real, 0, 0.0, y as real, 0, 0, 0)
  }

  /** `Bird.jump`: restart the flight arc upwards from the current height.
      Position, tilt and animation are untouched. */
  function Jump(b: Bird): (r: Bird)
    ensures r.speed == JumpSpeed && r.time == 0 && r.height == b.y
    ensures r.x == b.x && r.y == b.y && r.angle == b.angle
    ensures r.imageCount == b.imageCount && r.frame == b.frame
    ensures BirdInvariant(b) ==> BirdInvariant(r)
  {
    b.(speed := JumpSpeed, time := 0, height := b.y)
  }

  /** Several flaps in one tick are one flap. */
  lemma JumpIdempotent(b: Bird)
    ensures Jump(Jump(b)) == Jump(b)
  {
  }

  /** 1.5*t*t + speed*t, the displacement formula before it is adjusted. */
  function RawDisplacement(speed: real, t: nat): real {
    Gravity * (t * t) as real + speed * t as real
  }

  /** The displacement `move` applies: downward motion is capped at 16 and
      upward motion gets 2 extra. It never points the other way from the raw
      value, never exceeds it, and never lands in (-2, 0). */
  function Adjust(raw: real): (d: real)
    ensures d <= MaxDrop
    ensures d <= raw
    ensures !(-UpwardSnap < d < 0.0)
    ensures d < 0.0 <==> raw < 0.0
    ensures raw < 0.0 ==> d == raw - UpwardSnap
    ensures 0.0 <= raw <= MaxDrop <==> d == raw
    ensures raw > MaxDrop <==> d == MaxDrop && raw != MaxDrop
  {
    if raw > MaxDrop then MaxDrop
    else if raw < 0.0 then raw - UpwardSnap
    else raw
  }

  /** A higher raw value never gives a lower displacement. */
  lemma AdjustMonotone(a: real, b: real)
    requires a <= b
    ensures Adjust(a) <= Adjust(b)
  {
  }

  /** The tilt update of `move`: nose up to 25 while rising or still within 50
      of the last flap height, otherwise down 20 per tick until past -90. */
  function Tilt(angle: int, d: real, y: real, height: real): (a: int)
    ensures -110 < angle <= MaxRotation ==> -110 < a <= MaxRotation
    ensures ReachableAngle(angle) ==> ReachableAngle(a)
    ensures (d < 0.0 || y < height + LevelOffDepth) && angle <= MaxRotation ==> a == MaxRotation
    ensures !(d < 0.0 || y < height + LevelOffDepth) ==>
              a == (if angle > DiveLimit then angle - RotationSpeed else angle)
    ensures a <= angle || a == MaxRotation
  {
    if d < 0.0 || y < height + LevelOffDepth then
      if angle >= MaxRotation then angle else MaxRotation
    else if angle > DiveLimit then angle - RotationSpeed
    else angle
  }

  /** A diving bird settles at -95 or -100 and stays there. */
  lemma DiveSettles(angle: int, d: real, y: real, height: real)
    requires ReachableAngle(angle) && angle <= DiveLimit
    requires !(d < 0.0 || y < height + LevelOffDepth)
    ensures Tilt(angle, d, y, height) == angle
    ensures angle == -95 || angle == -100
  {
  }

  /** `Bird.move`: one tick of the flight arc. */
  function Move(b: Bird): (r: Bird)
    ensures r.time == b.time + 1
    ensures r.x == b.x && r.speed == b.speed && r.height == b.height
    ensures r.imageCount == b.imageCount && r.frame == b.frame
    ensures r.y - b.y == Adjust(RawDisplacement(b.speed, r.time))
    ensures r.angle == Tilt(b.angle, r.y - b.y, r.y, b.height)
    ensures BirdInvariant(b) ==> BirdInvariant(r)
  {
    var t := b.time + 1;
    var d := Adjust(RawDisplacement(b.speed, t));
    var y := b.y + d;
    b.(time := t, y := y, angle := Tilt(b.angle, d, y, b.height))
  }

  /** A bird that never flapped falls further every tick: 1.5, 6 and 13.5 in
      the first three ticks and exactly 16 from the fourth on. */
  lemma RestingBirdFalls(b: Bird)
    requires b.speed == 0.0
    ensures Move(b).y > b.y
    ensures b.time == 0 ==> Move(b).y == b.y + 1.5
    ensures b.time == 1 ==> Move(b).y == b.y + 6.0
    ensures b.time == 2 ==> Move(b).y == b.y + 13.5
    ensures b.time >= 3 ==> Move(b).y == b.y + MaxDrop
  {
    var t := b.time + 1;
    assert RawDisplacement(b.speed, t) == Gravity * (t * t) as real;
    if t >= 4 {
      SquareAtLeast(t, 4);
    }
  }

  /** t*t >= k*t for t >= k >= 0, in integers. */
  lemma SquareAtLeast(t: int, k: int)
    requires t >= k >= 0
    ensures t * t >= k * t
  {
  }

  /** The bird after `n` ticks without a flap. */
  function Fly(b: Bird, n: nat): Bird {
    if n == 0 then b else Move(Fly(b, n - 1))
  }

  /** Total drop after `n` ticks of free fall from rest. */
  function FreeFallDrop(n: nat): real {
    if n <= 3 then [0.0, 1.5, 7.5, 21.0][n] else 21.0 + MaxDrop * (n - 3) as real
  }

  /** Free fall from rest: the drop after `n` ticks is `FreeFallDrop(n)`. */
  lemma {:induction false} FreeFall(b: Bird, n: nat)
    requires b.speed == 0.0 && b.time == 0
    ensures Fly(b, n).y == b.y + FreeFallDrop(n)
    ensures Fly(b, n).time == n && Fly(b, n).speed == 0.0 && Fly(b, n).x == b.x
  {
    if n > 0 {
      FreeFall(b, n - 1);
      RestingBirdFalls(Fly(b, n - 1));
    }
  }

  /** The free-fall drop grows by the displacement of the next tick. */
  lemma FreeFallStep(b: Bird, k: nat)
    requires b.speed == 0.0 && b.time == k
    ensures Move(b).y - b.y == FreeFallDrop(k + 1) - FreeFallDrop(k)
  {
    RestingBirdFalls(b);
  }

  /** Displacement in tick `t` after a flap (t >= 1): -11, -17, -20, -20,
      -17, -11, 0, 12, then 16 per tick. */
  function FlapDisplacement(t: nat): real {
    if t == 1 then -11.0
    else if t == 2 then -17.0
    else if t == 3 || t == 4 then -20.0
    else if t == 5 then -17.0
    else if t == 6 then -11.0
    else if t == 7 then 0.0
    else if t == 8 then 12.0
    else MaxDrop
  }

  /** Height gained over the first `n` ticks after a flap. */
  function FlapOffset(n: nat): real {
    if n == 0 then 0.0 else FlapOffset(n - 1) + FlapDisplacement(n)
  }

  /** One tick of the flap arc follows `FlapDisplacement`. */
  lemma FlapStep(b: Bird)
    requires b.speed == JumpSpeed
    ensures Move(b).y - b.y == FlapDisplacement(b.time + 1)
  {
    var t := b.time + 1;
    var raw := RawDisplacement(b.speed, t);
    if t >= 9 {
      SquareAtLeast(t, 9);
      assert raw >= 3.0 * t as real;
    } else if t == 1 {
      assert raw == -9.0;
    } else if t == 2 {
      assert raw == -15.0;
    } else if t == 3 {
      assert raw == -18.0;
    } else if t == 4 {
      assert raw == -18.0;
    } else if t == 5 {
      assert raw == -15.0;
    } else if t == 6 {
      assert raw == -9.0;
    } else if t == 7 {
      assert raw == 0.0;
    } else {
      assert raw == 12.0;
    }
  }

  /** The bird's height `n` ticks after a flap. */
  lemma {:induction false} FlapArc(b: Bird, n: nat)
    ensures Fly(Jump(b), n).y == b.y + FlapOffset(n)
    ensures Fly(Jump(b), n).time == n && Fly(Jump(b), n).speed == JumpSpeed
  {
    if n > 0 {
      var prev := Fly(Jump(b), n - 1);
      FlapArc(b, n - 1);
      FlapStep(prev);
      assert Fly(Jump(b), n) == Move(prev);
    }
  }

  /** A flap lifts the bird at most 96 above where it flapped, reached six
      ticks later, and it is below that height again from the 14th tick on. */
  lemma {:induction false} FlapApex(n: nat)
    ensures FlapOffset(n) >= -96.0
    ensures FlapOffset(6) == -96.0
    ensures n >= 14 ==> FlapOffset(n) > 0.0
  {
    if n > 14 {
      FlapApex(n - 1);
    } else {
      assert FlapOffset(6) == -96.0;
      assert FlapOffset(14) == 12.0;
    }
  }

  /** The image chosen by the animation counter outside a dive, for counts
      below 20: the flap cycle, one wing position per 5 frames. */
  function CycleFrame(count: nat): Frame
    requires count < 4 * AnimationTime
  {
    FlapCycle[count / AnimationTime]
  }

  /** The image-selection part of `Bird.draw`: advance the counter and pick
      the wing image; count 20 keeps the previous image, 21 restarts the cycle;
      a bird tilted to -80 or below glides with the middle image. */
  function Animate(b: Bird): (r: Bird)
    ensures r.imageCount <= 4 * AnimationTime
    ensures r == b.(imageCount := r.imageCount, frame := r.frame)
    ensures b.angle <= GlideAngle ==> r.frame == 1 && r.imageCount == 2 * AnimationTime
    ensures b.angle > GlideAngle && b.imageCount + 1 < 4 * AnimationTime ==>
              r.imageCount == b.imageCount + 1 && r.frame == CycleFrame(r.imageCount)
    ensures b.angle > GlideAngle && b.imageCount + 1 == 4 * AnimationTime ==>
              r.imageCount == 4 * AnimationTime && r.frame == b.frame
    ensures b.angle > GlideAngle && b.imageCount + 1 > 4 * AnimationTime ==>
              r.imageCount == 0 && r.frame == 0
    ensures BirdInvariant(b) ==> BirdInvariant(r)
  {
    var c := b.imageCount + 1;
    var (count, frame) :=
      if c < AnimationTime then (c, 0)
      else if c < AnimationTime * 2 then (c, 1)
      else if c < AnimationTime * 3 then (c, 2)
      else if c < AnimationTime * 4 then (c, 1)
      else if c >= AnimationTime * 4 + 1 then (0, 0)
      else (c, b.frame);
    if b.angle <= GlideAngle then b.(imageCount := AnimationTime * 2, frame := 1)
    else b.(imageCount := count, frame := frame)
  }

  /** The bird after `n` draws. */
  function Redraw(b: Bird, n: nat): Bird {
    if n == 0 then b else Animate(Redraw(b, n - 1))
  }

  /** Outside a dive the counter climbs one per draw through the flap cycle,
      holds the last wing position at 20, and is back at image 0, count 0, on
      the 21st draw. */
  lemma {:induction false} FlapPeriod(b: Bird, n: nat)
    requires b.imageCount == 0 && b.angle > GlideAngle && n <= 21
    ensures Redraw(b, n).angle == b.angle
    ensures 1 <= n < 20 ==> Redraw(b, n).imageCount == n && Redraw(b, n).frame == CycleFrame(n)
    ensures n == 20 ==> Redraw(b, n).imageCount == 20 && Redraw(b, n).frame == 1
    ensures n == 21 ==> Redraw(b, n).imageCount == 0 && Redraw(b, n).frame == 0
  {
    if n > 0 {
      FlapPeriod(b, n - 1);
    }
  }
}
