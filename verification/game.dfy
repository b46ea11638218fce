/** One play-through of the game, tick by tick: flap, fly, scroll the ground,
    sweep the pipes (collide, pass and score, move, retire, spawn), check the
    ground and the ceiling, draw. A crash ends the game and starts a new one. */
module GameLoop {
  import opened Sprites
  import opened BirdPhysics
  import opened Pipes
  import opened GroundBelt

  const BirdStartX: int := 230
  const BirdStartY: int := 350
  const GroundLevel: int := 730
  /** x of the pipe a game starts with. */
  const FirstPipeX: int := 700
  /** x of the pipe added each time one is passed. */
  const SpawnPipeX: int := 600

  /** The state of `main` between two ticks. */
  datatype Session = Session(bird: Bird, ground: Ground, pipes: seq<Pipe>, score: nat)

  /** Why a game ended. */
  datatype Cause = PipeHit | HitGround | AboveScreen

  /** The outcome of one tick: the game goes on, or it is over with the score
      shown on the game-over screen, and a fresh game takes its place. */
  datatype Tick = Running(session: Session) | GameOver(cause: Cause, finalScore: nat, restart: Session)

  /** Asset sizes the game can run with: positive sizes, and a ground tile at
      least as wide as the distance the ground scrolls in one tick. */
  predicate Playable(a: Assets) {
    a.Valid() && a.groundWidth >= GroundSpeed
  }

  /** The state `main` sets up, with `h` the gap height drawn for the first pipe. */
  function Start(h: int, a: Assets): (s: Session)
    requires ValidHeight(h)
    ensures s.score == 0 && s.bird == NewBird(BirdStartX, BirdStartY)
    ensures s.ground == NewGround(GroundLevel, a.groundWidth)
    ensures s.pipes == [NewPipe(FirstPipeX, h, a.pipeHeight)]
    ensures Playable(a) ==> Invariant(s, a)
  {
    Session(NewBird(BirdStartX, BirdStartY), NewGround(GroundLevel, a.groundWidth),
            [NewPipe(FirstPipeX, h, a.pipeHeight)], 0)
  }

  /** The pipe list between two ticks: never empty, every pipe well shaped,
      and every pipe but the newest already passed. */
  predicate PipesInvariant(ps: seq<Pipe>, pipeHeight: int) {
    && |ps| >= 1
    && (forall i :: 0 <= i < |ps| ==> WellShaped(ps[i], pipeHeight))
    && (forall i :: 0 <= i < |ps| - 1 ==> ps[i].passed)
    && !ps[|ps| - 1].passed
  }

  /** What holds between any two ticks of a game: the bird stays in its column
      with a reachable tilt and counter, the ground keeps its belt shape, and
      the pipes keep `PipesInvariant`. */
  predicate Invariant(s: Session, a: Assets) {
    && s.bird.x == BirdStartX
    && BirdInvariant(s.bird)
    && s.ground.y == GroundLevel
    && Belt(s.ground, a.groundWidth)
    && PipesInvariant(s.pipes, a.pipeHeight)
  }

  /** The bird gets past pipe `p` in this tick. */
  predicate PassesNow(p: Pipe, birdX: int) {
    !p.passed && birdX > p.x
  }

  /** One pipe's turn in the sweep when it does not collide: mark it passed
      if the bird is past it, then move it. */
  function Advance(p: Pipe, birdX: int): (r: Pipe)
    ensures r.passed <==> p.passed || birdX > p.x
    ensures r.x == p.x - PipeSpeed
    ensures r.height == p.height && r.topPos == p.topPos && r.bottomPos == p.bottomPos
  {
    MovePipe(if PassesNow(p, birdX) then p.(passed := true) else p)
  }

  /** A pipe whose right edge is left of the screen. */
  predicate OffScreen(p: Pipe, pipeWidth: int) {
    p.x + pipeWidth < 0
  }

  /** Every pipe advanced, in order. */
  function AdvanceAll(ps: seq<Pipe>, birdX: int): (r: seq<Pipe>)
    ensures |r| == |ps|
    ensures forall i :: 0 <= i < |ps| ==> r[i] == Advance(ps[i], birdX)
  {
    seq(|ps|, i requires 0 <= i < |ps| => Advance(ps[i], birdX))
  }

  /** `[p]` if pipe `p` stays on screen, `[]` if it is retired. */
  function Keep(p: Pipe, pipeWidth: int): seq<Pipe> {
    if OffScreen(p, pipeWidth) then [] else [p]
  }

  /** The pipes still on screen, in their order. */
  function Retire(ps: seq<Pipe>, pipeWidth: int): (r: seq<Pipe>)
    ensures |r| <= |ps|
    ensures forall i :: 0 <= i < |r| ==> !OffScreen(r[i], pipeWidth)
  {
    if |ps| == 0 then [] else Keep(ps[0], pipeWidth) + Retire(ps[1..], pipeWidth)
  }

  /** Exactly the pipes that are not off screen survive `Retire`. */
  lemma {:induction false} RetireMembers(ps: seq<Pipe>, pipeWidth: int)
    ensures forall q :: q in Retire(ps, pipeWidth) <==> q in ps && !OffScreen(q, pipeWidth)
  {
    if |ps| > 0 {
      RetireMembers(ps[1..], pipeWidth);
      assert forall q :: q in ps <==> q == ps[0] || q in ps[1..];
    }
  }

  /** Retiring distributes over concatenation. */
  lemma {:induction false} RetireAppend(a: seq<Pipe>, b: seq<Pipe>, pipeWidth: int)
    ensures Retire(a + b, pipeWidth) == Retire(a, pipeWidth) + Retire(b, pipeWidth)
  {
    if |a| == 0 {
      assert a + b == b;
    } else {
      assert (a + b)[0] == a[0];
      assert (a + b)[1..] == a[1..] + b;
      RetireAppend(a[1..], b, pipeWidth);
    }
  }

  /** The result of the sweep: a crash, or the surviving pipes and whether a
      new pipe (and a point) is due. */
  datatype Sweep = Crash | Swept(kept: seq<Pipe>, addPipe: bool)

  /** The `for pipe in pipes` loop of `main`, one pipe at a time: collision
      first, then the pass test, the move and the off-screen test. A pass sets
      one shared flag, however many pipes are passed. The result agrees with
      advancing all pipes and then retiring the off-screen ones in a second
      pass. */
  function SweepPipes(ps: seq<Pipe>, b: Bird, overlap: MaskOverlap, pipeWidth: int): (r: Sweep)
    ensures r.Crash? <==> exists i :: 0 <= i < |ps| && Collide(ps[i], b, overlap)
    ensures r.Swept? ==> (r.addPipe <==> exists i :: 0 <= i < |ps| && PassesNow(ps[i], b.x))
    ensures r.Swept? ==> r.kept == Retire(AdvanceAll(ps, b.x), pipeWidth)
    decreases |ps|
  {
    if |ps| == 0 then Swept([], false)
    else if Collide(ps[0], b, overlap) then Crash
    else
      var q := Advance(ps[0], b.x);
      match SweepPipes(ps[1..], b, overlap, pipeWidth)
      case Crash =>
        assert forall i :: 0 <= i < |ps| - 1 ==> ps[1..][i] == ps[i + 1];
        Crash
      case Swept(rest, add) =>
        assert forall i :: 0 <= i < |ps| - 1 ==> ps[1..][i] == ps[i + 1];
        assert AdvanceAll(ps, b.x)[1..] == AdvanceAll(ps[1..], b.x);
        Swept(Keep(q, pipeWidth) + rest, add || PassesNow(ps[0], b.x))
  }

  /** The bird's new position leaves the screen: its bottom edge (from the
      image drawn last tick) below the ground, or its top edge above y = 0. */
  predicate OutOfBounds(b: Bird, groundY: int, a: Assets) {
    b.y + a.birdHeight(b.frame) as real > groundY as real || b.y < 0.0
  }

  /** The bird after this tick's input and move. */
  function Flown(b: Bird, jump: bool): Bird {
    Move(if jump then Jump(b) else b)
  }

  /** One pass of the `while running` loop of `main`. `jump` is whether a space
      key press arrived this tick; `spawnH` and `restartH` are the gap heights
      a new pipe would draw, for the pipe spawned at 600 and for the first pipe
      of a restarted game. */
  function Step(s: Session, jump: bool, spawnH: int, restartH: int,
                overlap: MaskOverlap, a: Assets): (t: Tick)
    requires ValidHeight(spawnH) && ValidHeight(restartH)
    ensures t.GameOver? ==> t.restart == Start(restartH, a)
    ensures t.GameOver? <==>
              (exists i :: 0 <= i < |s.pipes| && Collide(s.pipes[i], Flown(s.bird, jump), overlap))
              || OutOfBounds(Flown(s.bird, jump), s.ground.y, a)
    ensures t.GameOver? ==>
              (t.cause == PipeHit <==>
                 exists i :: 0 <= i < |s.pipes| && Collide(s.pipes[i], Flown(s.bird, jump), overlap))
    ensures t.GameOver? && t.cause == PipeHit ==> t.finalScore == s.score
    ensures t.GameOver? && t.cause == HitGround ==>
              Flown(s.bird, jump).y + a.birdHeight(s.bird.frame) as real > s.ground.y as real
    ensures t.GameOver? && t.cause == AboveScreen ==>
              && Flown(s.bird, jump).y < 0.0
              && !(Flown(s.bird, jump).y + a.birdHeight(s.bird.frame) as real > s.ground.y as real)
    ensures t.GameOver? && t.cause != PipeHit ==>
              (t.finalScore == s.score + 1 <==> exists i :: 0 <= i < |s.pipes| && PassesNow(s.pipes[i], s.bird.x))
    ensures t.GameOver? ==> t.finalScore == s.score || t.finalScore == s.score + 1
    ensures t.Running? ==>
              (t.session.score == s.score + 1 <==> exists i :: 0 <= i < |s.pipes| && PassesNow(s.pipes[i], s.bird.x))
    ensures t.Running? ==> t.session.score == s.score || t.session.score == s.score + 1
    ensures t.Running? ==>
              t.session.pipes == Retire(AdvanceAll(s.pipes, s.bird.x), a.pipeWidth)
                + (if t.session.score == s.score then [] else [NewPipe(SpawnPipeX, spawnH, a.pipeHeight)])
    ensures t.Running? ==> t.session.bird == Animate(Flown(s.bird, jump))
    ensures t.Running? ==> t.session.ground == MoveGround(s.ground, a.groundWidth)
    ensures t.Running? ==> !OutOfBounds(Flown(s.bird, jump), s.ground.y, a)
  {
    var bird := Flown(s.bird, jump);
    var ground := MoveGround(s.ground, a.groundWidth);
    match SweepPipes(s.pipes, bird, overlap, a.pipeWidth)
    case Crash => GameOver(PipeHit, s.score, Start(restartH, a))
    case Swept(kept, add) =>
      var pipes := if add then kept + [NewPipe(SpawnPipeX, spawnH, a.pipeHeight)] else kept;
      var score := if add then s.score + 1 else s.score;
      if bird.y + a.birdHeight(bird.frame) as real > ground.y as real then
        GameOver(HitGround, score, Start(restartH, a))
      else if bird.y < 0.0 then
        GameOver(AboveScreen, score, Start(restartH, a))
      else
        Running(Session(Animate(bird), ground, pipes, score))
  }

  /** Pipes already passed stay passed and keep their shape through the sweep. */
  lemma SweepKeepsPassed(ps: seq<Pipe>, birdX: int, pipeWidth: int, pipeHeight: int)
    requires forall i :: 0 <= i < |ps| ==> ps[i].passed && WellShaped(ps[i], pipeHeight)
    ensures forall p :: p in Retire(AdvanceAll(ps, birdX), pipeWidth) ==>
              p.passed && WellShaped(p, pipeHeight)
  {
    RetireMembers(AdvanceAll(ps, birdX), pipeWidth);
    forall p | p in Retire(AdvanceAll(ps, birdX), pipeWidth)
      ensures p.passed && WellShaped(p, pipeHeight)
    {
      var i :| 0 <= i < |ps| && AdvanceAll(ps, birdX)[i] == p;
    }
  }

  /** All passed pipes followed by one unpassed pipe satisfy `PipesInvariant`. */
  lemma PassedThenNewest(front: seq<Pipe>, newest: Pipe, pipeHeight: int)
    requires forall p :: p in front ==> p.passed && WellShaped(p, pipeHeight)
    requires WellShaped(newest, pipeHeight) && !newest.passed
    ensures PipesInvariant(front + [newest], pipeHeight)
  {
    var ps := front + [newest];
    assert forall i :: 0 <= i < |ps| - 1 ==> ps[i] in front;
  }

  /** The pipe list split into the passed pipes and the newest one, after the
      sweep: the passed ones that survive, then the newest one if it survives. */
  lemma SplitNewest(ps: seq<Pipe>, birdX: int, pipeWidth: int, pipeHeight: int)
    requires PipesInvariant(ps, pipeHeight)
    ensures var front := Retire(AdvanceAll(ps[..|ps| - 1], birdX), pipeWidth);
            && Retire(AdvanceAll(ps, birdX), pipeWidth)
                 == front + Retire([Advance(ps[|ps| - 1], birdX)], pipeWidth)
            && forall p :: p in front ==> p.passed && WellShaped(p, pipeHeight)
  {
    var init := ps[..|ps| - 1];
    var q := Advance(ps[|ps| - 1], birdX);
    assert AdvanceAll(ps, birdX) == AdvanceAll(init, birdX) + [q];
    RetireAppend(AdvanceAll(init, birdX), [q], pipeWidth);
    SweepKeepsPassed(init, birdX, pipeWidth, pipeHeight);
  }

  /** When the newest pipe is passed, every surviving pipe is passed and the
      fresh pipe appended after them becomes the newest. */
  lemma SweepAfterPass(ps: seq<Pipe>, birdX: int, spawned: Pipe, pipeWidth: int, pipeHeight: int)
    requires PipesInvariant(ps, pipeHeight)
    requires PassesNow(ps[|ps| - 1], birdX)
    requires WellShaped(spawned, pipeHeight) && !spawned.passed
    ensures PipesInvariant(Retire(AdvanceAll(ps, birdX), pipeWidth) + [spawned], pipeHeight)
  {
    var q := Advance(ps[|ps| - 1], birdX);
    SplitNewest(ps, birdX, pipeWidth, pipeHeight);
    RetireMembers([q], pipeWidth);
    PassedThenNewest(Retire(AdvanceAll(ps, birdX), pipeWidth), spawned, pipeHeight);
  }

  /** When no pipe is passed, the newest pipe is still right of the bird, so
      it survives the sweep and stays the newest. */
  lemma SweepWithoutPass(ps: seq<Pipe>, birdX: int, pipeWidth: int, pipeHeight: int)
    requires PipesInvariant(ps, pipeHeight)
    requires !PassesNow(ps[|ps| - 1], birdX)
    requires pipeWidth > 0 && birdX >= PipeSpeed
    ensures PipesInvariant(Retire(AdvanceAll(ps, birdX), pipeWidth), pipeHeight)
  {
    var q := Advance(ps[|ps| - 1], birdX);
    SplitNewest(ps, birdX, pipeWidth, pipeHeight);
    assert Retire([q], pipeWidth) == [q];
    PassedThenNewest(Retire(AdvanceAll(ps[..|ps| - 1], birdX), pipeWidth), q, pipeHeight);
  }

  /** The session a tick leads to: the running game, or the restarted one. */
  function Next(t: Tick): Session {
    if t.Running? then t.session else t.restart
  }

  /** A session shaped like the outcome of a tick that did not crash keeps the
      invariant: when the newest pipe is passed a fresh one is appended, and
      otherwise the newest pipe is still right of the bird and so is not
      retired. */
  lemma RunningKeepsInvariant(s: Session, next: Session, jump: bool, spawned: Pipe, a: Assets)
    requires Playable(a) && Invariant(s, a)
    requires WellShaped(spawned, a.pipeHeight) && !spawned.passed
    requires next.bird == Animate(Flown(s.bird, jump))
    requires next.ground == MoveGround(s.ground, a.groundWidth)
    requires next.score == s.score || next.score == s.score + 1
    requires next.score == s.score + 1 <==> exists i :: 0 <= i < |s.pipes| && PassesNow(s.pipes[i], s.bird.x)
    requires next.pipes == Retire(AdvanceAll(s.pipes, s.bird.x), a.pipeWidth)
                             + (if next.score == s.score then [] else [spawned])
    ensures Invariant(next, a)
  {
    var ps := s.pipes;
    if PassesNow(ps[|ps| - 1], s.bird.x) {
      SweepAfterPass(ps, s.bird.x, spawned, a.pipeWidth, a.pipeHeight);
    } else {
      assert forall i :: 0 <= i < |ps| ==> !PassesNow(ps[i], s.bird.x);
      SweepWithoutPass(ps, s.bird.x, a.pipeWidth, a.pipeHeight);
    }
  }

  /** Every tick keeps the game invariant, and a restart establishes it anew. */
  lemma StepPreservesInvariant(s: Session, jump: bool, spawnH: int, restartH: int,
                               overlap: MaskOverlap, a: Assets)
    requires Playable(a) && Invariant(s, a)
    requires ValidHeight(spawnH) && ValidHeight(restartH)
    ensures Invariant(Next(Step(s, jump, spawnH, restartH, overlap, a)), a)
  {
    var t := Step(s, jump, spawnH, restartH, overlap, a);
    if t.Running? {
      RunningKeepsInvariant(s, t.session, jump, NewPipe(SpawnPipeX, spawnH, a.pipeHeight), a);
    }
  }

  /** How many pipes the bird gets past in this tick. */
  function PassCount(ps: seq<Pipe>, birdX: int): (n: nat)
    ensures n <= |ps|
    ensures n == 0 <==> !exists i :: 0 <= i < |ps| && PassesNow(ps[i], birdX)
  {
    if |ps| == 0 then 0
    else
      assert forall i :: 0 <= i < |ps| - 1 ==> ps[1..][i] == ps[i + 1];
      (if PassesNow(ps[0], birdX) then 1 else 0) + PassCount(ps[1..], birdX)
  }

  /** With every pipe but the newest already passed, at most one pipe is
      passed per tick. */
  lemma {:induction false} OnlyNewestCanPass(ps: seq<Pipe>, birdX: int)
    requires forall i :: 0 <= i < |ps| - 1 ==> ps[i].passed
    ensures PassCount(ps, birdX) <= 1
  {
    if |ps| > 1 {
      assert ps[0].passed;
      OnlyNewestCanPass(ps[1..], birdX);
    }
  }

  /** In a running game the score goes up by exactly the number of pipes
      passed in the tick: folding all passes into one flag loses nothing,
      because no tick passes two pipes. */
  lemma ScoreCountsPasses(s: Session, jump: bool, spawnH: int, restartH: int,
                          overlap: MaskOverlap, a: Assets)
    requires Invariant(s, a)
    requires ValidHeight(spawnH) && ValidHeight(restartH)
    ensures Step(s, jump, spawnH, restartH, overlap, a).Running? ==>
              Step(s, jump, spawnH, restartH, overlap, a).session.score
                == s.score + PassCount(s.pipes, s.bird.x)
  {
    OnlyNewestCanPass(s.pipes, s.bird.x);
  }

  /** Gap heights usable as `randrange(50, 475)` draws. */
  predicate ValidDraws(draws: seq<int>) {
    forall i :: 0 <= i < |draws| ==> ValidHeight(draws[i])
  }

  /** A game played for `|jumps|` ticks, or until its first crash. Tick `i`
      flaps when `jumps[i]` holds and takes its two gap-height draws from
      `draws[2 * i]` and `draws[2 * i + 1]`. The invariant holds throughout
      and the score only grows, by at most one per tick. */
  function Play(s: Session, jumps: seq<bool>, draws: seq<int>, overlap: MaskOverlap, a: Assets): (t: Tick)
    requires |draws| == 2 * |jumps| && ValidDraws(draws)
    ensures Playable(a) && Invariant(s, a) ==> Invariant(Next(t), a)
    ensures t.Running? ==> s.score <= t.session.score <= s.score + |jumps|
    decreases |jumps|
  {
    if |jumps| == 0 then Running(s)
    else
      var t := Step(s, jumps[0], draws[0], draws[1], overlap, a);
      assert Playable(a) && Invariant(s, a) ==> Invariant(Next(t), a) by {
        if Playable(a) && Invariant(s, a) {
          StepPreservesInvariant(s, jumps[0], draws[0], draws[1], overlap, a);
        }
      }
      match t
      case GameOver(cause, score, restart) => t
      case Running(next) => Play(next, jumps[1..], draws[2..], overlap, a)
  }

  /** One tick without a flap, for a bird falling from the start height. */
  lemma IdleTick(s: Session, k: nat, spawnH: int, restartH: int, overlap: MaskOverlap, a: Assets)
    requires Playable(a) && ValidHeight(spawnH) && ValidHeight(restartH)
    requires s.bird.speed == 0.0 && s.bird.time == k && s.ground.y == GroundLevel
    requires s.bird.y == BirdStartY as real + FreeFallDrop(k)
    ensures var t := Step(s, false, spawnH, restartH, overlap, a);
            t.Running? ==>
              && t.session.bird.speed == 0.0 && t.session.bird.time == k + 1
              && t.session.ground.y == GroundLevel
              && t.session.bird.y == BirdStartY as real + FreeFallDrop(k + 1)
              && t.session.bird.y < GroundLevel as real
    ensures var t := Step(s, false, spawnH, restartH, overlap, a);
            t.GameOver? ==> t.cause != AboveScreen
    ensures var t := Step(s, false, spawnH, restartH, overlap, a);
            (forall f, e, dx, dy :: !overlap(f, e, dx, dy)) && t.GameOver? ==> t.cause == HitGround
  {
    var b1 := Flown(s.bird, false);
    assert b1 == Move(s.bird);
    FreeFallStep(s.bird, k);
    assert b1.y == BirdStartY as real + FreeFallDrop(k + 1);
    assert a.birdHeight(s.bird.frame) > 0;
  }

  /** Without flaps, a game that is still running after `|jumps|` ticks has
      its bird exactly `FreeFallDrop` below the start, and above the ground;
      a game that ends does so on the ground or on a pipe. */
  lemma {:induction false} IdleFall(s: Session, k: nat, jumps: seq<bool>, draws: seq<int>,
                                    overlap: MaskOverlap, a: Assets)
    requires Playable(a)
    requires |draws| == 2 * |jumps| && ValidDraws(draws)
    requires forall i :: 0 <= i < |jumps| ==> !jumps[i]
    requires s.bird.speed == 0.0 && s.bird.time == k && s.ground.y == GroundLevel
    requires s.bird.y == BirdStartY as real + FreeFallDrop(k)
    ensures var t := Play(s, jumps, draws, overlap, a);
            t.Running? ==> t.session.bird.y == BirdStartY as real + FreeFallDrop(k + |jumps|)
    ensures var t := Play(s, jumps, draws, overlap, a);
            t.Running? && |jumps| > 0 ==> BirdStartY as real + FreeFallDrop(k + |jumps|) < GroundLevel as real
    ensures var t := Play(s, jumps, draws, overlap, a);
            t.GameOver? ==> t.cause != AboveScreen
    ensures var t := Play(s, jumps, draws, overlap, a);
            (forall f, e, dx, dy :: !overlap(f, e, dx, dy)) && t.GameOver? ==> t.cause == HitGround
    decreases |jumps|
  {
    if |jumps| > 0 {
      var t := Step(s, false, draws[0], draws[1], overlap, a);
      IdleTick(s, k, draws[0], draws[1], overlap, a);
      if t.Running? {
        assert Play(s, jumps, draws, overlap, a) == Play(t.session, jumps[1..], draws[2..], overlap, a);
        IdleFall(t.session, k + 1, jumps[1..], draws[2..], overlap, a);
      } else {
        assert Play(s, jumps, draws, overlap, a) == t;
      }
    }
  }

  /** A game nobody plays ends within 26 ticks, by hitting the ground or a
      pipe: 26 ticks of free fall take the bird from 350 to 739, below the
      ground at 730. */
  lemma IdleGameEnds(h: int, jumps: seq<bool>, draws: seq<int>, overlap: MaskOverlap, a: Assets)
    requires Playable(a) && ValidHeight(h)
    requires |jumps| == 26 && forall i :: 0 <= i < |jumps| ==> !jumps[i]
    requires |draws| == 2 * |jumps| && ValidDraws(draws)
    ensures Play(Start(h, a), jumps, draws, overlap, a).GameOver?
    ensures Play(Start(h, a), jumps, draws, overlap, a).cause != AboveScreen
    ensures (forall f, e, dx, dy :: !overlap(f, e, dx, dy)) ==>
              Play(Start(h, a), jumps, draws, overlap, a).cause == HitGround
  {
    IdleFall(Start(h, a), 0, jumps, draws, overlap, a);
    assert FreeFallDrop(26) == 389.0;
  }
}
