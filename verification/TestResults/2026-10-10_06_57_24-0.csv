TestResult.DisplayName,TestResult.Outcome,TestResult.Duration,TestResult.ResourceCount,RandomSeed
GameLoop.IdleFall (correctness),Passed,00:00:00.9016884,1798122,0
GameLoop.Step (well-formedness),Passed,00:00:00.5303704,715678,0
GameLoop.SweepKeepsPipesInvariant (correctness),Passed,00:00:00.4119392,860202,0
GameLoop.Play (well-formedness),Passed,00:00:00.3197302,445405,0
GameLoop.ScoreCountsPasses (correctness),Passed,00:00:00.2968924,227678,0
GameLoop.SweepPipes (well-formedness),Passed,00:00:00.2859416,502696,0
GameLoop.IdleGameEnds (well-formedness),Passed,00:00:00.2728579,190185,0
GameLoop.ScoreCountsPasses (well-formedness),Passed,00:00:00.2542754,177939,0
GameLoop.StepPreservesInvariant (correctness),Passed,00:00:00.2526068,335568,0
GameLoop.IdleFall (well-formedness),Passed,00:00:00.2512650,198574,0
GameLoop.IdleGameEnds (correctness),Passed,00:00:00.2459363,341461,0
GameLoop.StepPreservesInvariant (well-formedness),Passed,00:00:00.2100102,176492,0
GameLoop.Start (well-formedness),Passed,00:00:00.2077574,86458,0
GameLoop.PipesInvariant (well-formedness),Passed,00:00:00.1800273,23997,0
PyRound.RoundHalfEven (well-formedness),Passed,00:00:00.1664299,18185,0
BirdPhysics.FlapArc (correctness),Passed,00:00:00.1636757,710850,0
PyRound.IsRounding (well-formedness),Passed,00:00:00.1603070,6051,0
BirdPhysics.FreeFall (correctness),Passed,00:00:00.1178204,296743,0
GameLoop.SplitNewest (correctness),Passed,00:00:00.1044646,141562,0
BirdPhysics.RestingBirdFalls (correctness),Passed,00:00:00.0956696,430315,0
BirdPhysics.FlapCycle (well-formedness),Passed,00:00:00.0947116,4623,0
BirdPhysics.FlapPeriod (correctness),Passed,00:00:00.0935362,80188,0
BirdPhysics.FlapPeriod (well-formedness),Passed,00:00:00.0840147,34569,0
GameLoop.SweepKeepsPassed (correctness),Passed,00:00:00.0758044,96334,0
GameLoop.RetireAppend (correctness),Passed,00:00:00.0738216,145455,0
BirdPhysics.FlapApex (correctness),Passed,00:00:00.0616343,136080,0
Pipes.Collide (well-formedness),Passed,00:00:00.0609460,68090,0
GameLoop.SweepKeepsPipesInvariant (well-formedness),Passed,00:00:00.0603967,48384,0
BirdPhysics.Animate (well-formedness),Passed,00:00:00.0584625,136259,0
PyRound.RoundingIsUnique (correctness),Passed,00:00:00.0535389,21550,0
Pipes.CollideIgnoresTilt (correctness),Passed,00:00:00.0484337,58722,0
GameLoop.PassCount (well-formedness),Passed,00:00:00.0467278,51234,0
GameLoop.FreeFallStep (well-formedness),Passed,00:00:00.0465892,26897,0
GameLoop.FreeFallStep (correctness),Passed,00:00:00.0441399,51958,0
GameLoop.AdvanceAll (well-formedness),Passed,00:00:00.0441117,48773,0
BirdPhysics.Tilt (well-formedness),Passed,00:00:00.0439648,40173,0
GameLoop.SweepKeepsPassed (well-formedness),Passed,00:00:00.0426819,40676,0
GroundBelt.MoveGround (well-formedness),Passed,00:00:00.0425826,65625,0
GameLoop.SplitNewest (well-formedness),Passed,00:00:00.0424905,47631,0
BirdPhysics.Move (well-formedness),Passed,00:00:00.0422714,35309,0
BirdPhysics.FlapStep (correctness),Passed,00:00:00.0417019,129237,0
GroundBelt.NewGround (well-formedness),Passed,00:00:00.0386562,11909,0
GroundBelt.ScrollKeepsBelt (correctness),Passed,00:00:00.0385066,47980,0
GameLoop.PassedThenNewest (correctness),Passed,00:00:00.0376128,33797,0
GameLoop.Retire (well-formedness),Passed,00:00:00.0330497,49214,0
Pipes.SetHeight (well-formedness),Passed,00:00:00.0321356,15600,0
Pipes.ScrollPipe (well-formedness),Passed,00:00:00.0313462,11115,0
GroundBelt.Scroll (well-formedness),Passed,00:00:00.0306538,13060,0
GroundBelt.BeltCoversScreen (correctness),Passed,00:00:00.0299623,12499,0
Pipes.TestRejectsLowestDraw (well-formedness),Passed,00:00:00.0284118,17703,0
GameLoop.OnlyNewestCanPass (correctness),Passed,00:00:00.0282899,26392,0
GameLoop.Advance (well-formedness),Passed,00:00:00.0259887,17094,0
Pipes.ScrollPipeDistance (correctness),Passed,00:00:00.0259656,33201,0
PyRound.RoundIntegral (correctness),Passed,00:00:00.0259492,7643,0
GameLoop.OnlyNewestCanPass (well-formedness),Passed,00:00:00.0235473,14911,0
Pipes.TestAcceptsEveryDraw (correctness),Passed,00:00:00.0228419,14416,0
Pipes.NewPipe (well-formedness),Passed,00:00:00.0226260,15772,0
Pipes.TestRejectsLowestDraw (correctness),Passed,00:00:00.0213566,15804,0
BirdPhysics.Redraw (well-formedness),Passed,00:00:00.0211712,33757,0
BirdPhysics.FlapStep (well-formedness),Passed,00:00:00.0206561,27365,0
BirdPhysics.Jump (well-formedness),Passed,00:00:00.0206430,23554,0
BirdPhysics.Fly (well-formedness),Passed,00:00:00.0204153,24981,0
BirdPhysics.FreeFallDrop (well-formedness),Passed,00:00:00.0196002,8055,0
Pipes.TestAcceptsEveryDraw (well-formedness),Passed,00:00:00.0191683,11823,0
BirdPhysics.JumpIdempotent (correctness),Passed,00:00:00.0185087,18151,0
BirdPhysics.NewBird (well-formedness),Passed,00:00:00.0172902,19966,0
BirdPhysics.DiveSettles (correctness),Passed,00:00:00.0171664,12564,0
GameLoop.ValidDraws (well-formedness),Passed,00:00:00.0166898,10280,0
Sprites.Frame (well-formedness),Passed,00:00:00.0166418,3430,0
Pipes.MovePipe (well-formedness),Passed,00:00:00.0130863,10039,0
BirdPhysics.FlapOffset (well-formedness),Passed,00:00:00.0130300,7437,0
BirdPhysics.ReachableAngle (well-formedness),Passed,00:00:00.0127594,5236,0
BirdPhysics.FlapApex (well-formedness),Passed,00:00:00.0125844,7342,0
BirdPhysics.Adjust (well-formedness),Passed,00:00:00.0108184,8582,0
BirdPhysics.AdjustMonotone (correctness),Passed,00:00:00.0100862,7463,0
BirdPhysics.CycleFrame (well-formedness),Passed,00:00:00.0100662,10780,0
