/**
 The step function of the distributed Pong game (pong/pong.go). All coordinates are int16 in the
 source, so every stored sum passes through I16; the invariant shows that nothing ever wraps.

 The vertical part of the invariant is the delicate one. A wall bounce may speed the ball up by one
 and nothing clamps it, so the vertical speed is bounded only because a crossing of the field leaves
 time for few bounces: Toll(v) is the number of ticks a crossing must have lasted for the ball to
 reach vertical speed v.
 */
module Pong {
  import opened Common

  const FieldWidth := 256
  const FieldHeight := 128
  const PaddleHeight := 20
  const PaddleWidth := 4
  const PaddleMargin := 8
  const BallSize := 4
  const MaxBallSpeed := 8
  const PaddleSpeed := 6
  const InitialBallDX := 3
  const InitialBallDY := 2
  const WinScore := 11

  datatype Input = InputNone | InputUp | InputDown

  type Hash = h: seq<int> | |h| == 32 && forall i | 0 <= i < |h| :: 0 <= h[i] < 256
    witness seq(32, _ => 0)

  datatype State = State(ballX: int, ballY: int, ballDX: int, ballDY: int, paddle1Y: int, paddle2Y: int,
                         score1: nat, score2: nat, tick: nat, gameOver: bool, winner: nat)

  const NewState := State(FieldWidth / 2, FieldHeight / 2, InitialBallDX, InitialBallDY,
                          (FieldHeight - PaddleHeight) / 2, (FieldHeight - PaddleHeight) / 2, 0, 0, 0, false, 0)

  /** Go's int16 wrap-around. */
  function I16(x: int): int {
    if -32768 <= x < 32768 then x else (x + 32768) % 65536 - 32768
  }

  /** Go's integer division, which truncates toward zero. */
  function Quo(a: int, b: int): int
    requires b > 0
  {
    if a >= 0 then a / b else -(-a / b)
  }

  /** The one is the 16-bit number congruent to x, the other leaves a remainder of the dividend's sign. */
  lemma GoArithmetic(x: int, b: int)
    requires b > 0
    ensures -32768 <= I16(x) < 32768 && (x - I16(x)) % 65536 == 0
    ensures x >= 0 ==> 0 <= x - b * Quo(x, b) < b
    ensures x <= 0 ==> -b < x - b * Quo(x, b) <= 0
  {
    var y := -x;
    assert y == b * (y / b) + y % b;
  }

  function Clamp(v: int, min: int, max: int): int {
    if v < min then min else if v > max then max else v
  }

  // ---------- the stages of one tick ----------

  function PushPaddle(y: int, input: Input, h: int): int {
    var pushed := match input
      case InputUp => I16(y - PaddleSpeed)
      case InputDown => I16(y + PaddleSpeed)
      case InputNone => y;
    I16(pushed + h % 3 - 1)
  }

  function MovePaddle(y: int, input: Input, h: int): int {
    Clamp(PushPaddle(y, input, h), 0, FieldHeight - PaddleHeight)
  }

  function MoveBall(s: State, h: Hash): State {
    var speedMod := h[2] % 5 - 2;
    s.(ballX := I16(s.ballX + s.ballDX), ballY := I16(s.ballY + s.ballDY),
       ballDX := if s.ballDX > 0 then Clamp(I16(s.ballDX + Quo(speedMod, 2)), 1, MaxBallSpeed)
                 else Clamp(I16(s.ballDX - Quo(speedMod, 2)), -MaxBallSpeed, -1))
  }

  function BounceTop(s: State, h: Hash): State {
    if s.ballY <= 0 then s.(ballY := I16(-s.ballY), ballDY := I16(-s.ballDY + h[4] % 3 - 1)) else s
  }

  function BounceBottom(s: State, h: Hash): State {
    if s.ballY >= FieldHeight - BallSize
    then s.(ballY := I16(2 * (FieldHeight - BallSize) - s.ballY), ballDY := I16(-s.ballDY + h[5] % 3 - 1))
    else s
  }

  predicate Meets(ballY: int, paddleY: int) {
    I16(ballY + BallSize) >= paddleY && ballY <= I16(paddleY + PaddleHeight)
  }

  function Spin(ballY: int, paddleY: int): int {
    I16(Quo(I16(I16(ballY - paddleY + BallSize / 2) * 6), PaddleHeight) - 3)
  }

  /** The ball is level with the left paddle. */
  predicate InZone1(x: int) {
    PaddleMargin - BallSize <= x <= PaddleMargin + PaddleWidth
  }

  /** The ball is level with the right paddle. */
  predicate InZone2(x: int) {
    I16(x + BallSize) >= FieldWidth - PaddleMargin - PaddleWidth && x <= FieldWidth - PaddleMargin
  }

  function HitPaddle1(s: State, h: Hash): State {
    if InZone1(s.ballX) && Meets(s.ballY, s.paddle1Y) then
      var back := I16(-s.ballDX);
      s.(ballX := PaddleMargin + PaddleWidth + 1,
         ballDX := if back < MaxBallSpeed then I16(back + 1) else back,
         ballDY := Clamp(I16(s.ballDY + Spin(s.ballY, s.paddle1Y) + h[6] % 5 - 2), -MaxBallSpeed, MaxBallSpeed))
    else s
  }

  function HitPaddle2(s: State, h: Hash): State {
    if InZone2(s.ballX) && Meets(s.ballY, s.paddle2Y) then
      var back := I16(-s.ballDX);
      s.(ballX := FieldWidth - PaddleMargin - PaddleWidth - BallSize - 1,
         ballDX := if back > -MaxBallSpeed then I16(back - 1) else back,
         ballDY := Clamp(I16(s.ballDY + Spin(s.ballY, s.paddle2Y) + h[7] % 5 - 2), -MaxBallSpeed, MaxBallSpeed))
    else s
  }

  function ResetBall(s: State, h: Hash, scoredAgainst: nat): State {
    var dy := h[8] % 5 - 2;
    s.(ballX := FieldWidth / 2, ballY := FieldHeight / 2,
       ballDX := if scoredAgainst == 1 then -InitialBallDX else InitialBallDX,
       ballDY := if dy == 0 then 1 else dy)
  }

  function Score(s: State, h: Hash): State {
    if s.ballX < 0 then ResetBall(s.(score2 := (s.score2 + 1) % 256), h, 2)
    else if s.ballX > FieldWidth then ResetBall(s.(score1 := (s.score1 + 1) % 256), h, 1)
    else s
  }

  function Win(s: State): State {
    if s.score1 >= WinScore then s.(gameOver := true, winner := 1)
    else if s.score2 >= WinScore then s.(gameOver := true, winner := 2)
    else s
  }

  function Paddles(s: State, input1: Input, input2: Input, h: Hash): State {
    s.(paddle1Y := MovePaddle(s.paddle1Y, input1, h[0]), paddle2Y := MovePaddle(s.paddle2Y, input2, h[1]))
  }

  function Walls(s: State, h: Hash): State {
    BounceBottom(BounceTop(s, h), h)
  }

  /** The rally part of a tick: flight, walls, paddles and scoring. */
  function Rally(s: State, h: Hash): State {
    Score(HitPaddle2(HitPaddle1(Walls(MoveBall(s, h), h), h), h), h)
  }

  function ComputeNextState(s: State, input1: Input, input2: Input, h: Hash): State {
    var next := s.(tick := (s.tick + 1) % 0x1_0000_0000_0000_0000);
    if s.gameOver then next
    else Win(Rally(Paddles(next, input1, input2, h), h))
  }

  // ---------- the code, field by field ----------

  method ResetBallFields(s: State, h: Hash, scoredAgainst: nat) returns (r: State)
    ensures r == ResetBall(s, h, scoredAgainst)
  {
    r := s.(ballX := FieldWidth / 2, ballY := FieldHeight / 2);
    if scoredAgainst == 1 {
      r := r.(ballDX := -InitialBallDX);
    } else {
      r := r.(ballDX := InitialBallDX);
    }
    r := r.(ballDY := h[8] % 5 - 2);
    if r.ballDY == 0 { r := r.(ballDY := 1); }
  }

  method Pushed(y: int, input: Input, h: int) returns (r: int)
    ensures r == PushPaddle(y, input, h)
  {
    r := y;
    match input {
      case InputUp => r := I16(r - PaddleSpeed);
      case InputDown => r := I16(r + PaddleSpeed);
      case InputNone =>
    }
    r := I16(r + h % 3 - 1);
  }

  method UpdatePaddles(s: State, input1: Input, input2: Input, h: Hash) returns (next: State)
    ensures next == Paddles(s, input1, input2, h)
  {
    hide PushPaddle, Clamp;
    next := s;
    var y1 := Pushed(next.paddle1Y, input1, h[0]);
    next := next.(paddle1Y := y1);
    var y2 := Pushed(next.paddle2Y, input2, h[1]);
    next := next.(paddle2Y := y2);
    next := next.(paddle1Y := Clamp(next.paddle1Y, 0, FieldHeight - PaddleHeight));
    next := next.(paddle2Y := Clamp(next.paddle2Y, 0, FieldHeight - PaddleHeight));
  }

  method UpdateBall(s: State, h: Hash) returns (next: State)
    ensures next == Walls(MoveBall(s, h), h)
  {
    hide I16, Clamp, Quo;
    next := s.(ballX := I16(s.ballX + s.ballDX), ballY := I16(s.ballY + s.ballDY));
    var speedMod := h[2] % 5 - 2;
    if next.ballDX > 0 {
      next := next.(ballDX := Clamp(I16(next.ballDX + Quo(speedMod, 2)), 1, MaxBallSpeed));
    } else {
      next := next.(ballDX := Clamp(I16(next.ballDX - Quo(speedMod, 2)), -MaxBallSpeed, -1));
    }
    if next.ballY <= 0 {
      next := next.(ballY := I16(-next.ballY));
      next := next.(ballDY := I16(-next.ballDY + h[4] % 3 - 1));
    }
    if next.ballY >= FieldHeight - BallSize {
      next := next.(ballY := I16(2 * (FieldHeight - BallSize) - next.ballY));
      next := next.(ballDY := I16(-next.ballDY + h[5] % 3 - 1));
    }
  }

  method UpdateHit1(s: State, h: Hash) returns (next: State)
    ensures next == HitPaddle1(s, h)
  {
    hide I16, Spin, Clamp;
    next := s;
    if next.ballX <= PaddleMargin + PaddleWidth && next.ballX >= PaddleMargin - BallSize {
      if I16(next.ballY + BallSize) >= next.paddle1Y && next.ballY <= I16(next.paddle1Y + PaddleHeight) {
        next := next.(ballX := PaddleMargin + PaddleWidth + 1);
        next := next.(ballDX := I16(-next.ballDX));
        next := next.(ballDY := Clamp(I16(next.ballDY + Spin(next.ballY, next.paddle1Y) + h[6] % 5 - 2), -MaxBallSpeed, MaxBallSpeed));
        if next.ballDX < MaxBallSpeed { next := next.(ballDX := I16(next.ballDX + 1)); }
      }
    }
  }

  method UpdateHit2(s: State, h: Hash) returns (next: State)
    ensures next == HitPaddle2(s, h)
  {
    hide I16, Spin, Clamp;
    next := s;
    var paddle2Left := FieldWidth - PaddleMargin - PaddleWidth;
    if I16(next.ballX + BallSize) >= paddle2Left && next.ballX <= FieldWidth - PaddleMargin {
      if I16(next.ballY + BallSize) >= next.paddle2Y && next.ballY <= I16(next.paddle2Y + PaddleHeight) {
        next := next.(ballX := paddle2Left - BallSize - 1);
        next := next.(ballDX := I16(-next.ballDX));
        next := next.(ballDY := Clamp(I16(next.ballDY + Spin(next.ballY, next.paddle2Y) + h[7] % 5 - 2), -MaxBallSpeed, MaxBallSpeed));
        if next.ballDX > -MaxBallSpeed { next := next.(ballDX := I16(next.ballDX - 1)); }
      }
    }
  }

  /** One tick on a clone of the state; a legal state stays legal. */
  method NextState(current: State, input1: Input, input2: Input, h: Hash) returns (next: State)
    ensures next == ComputeNextState(current, input1, input2, h)
    ensures Inv(current) ==> Inv(next)
  {
    hide Paddles, Walls, MoveBall, HitPaddle1, HitPaddle2, Inv, ResetBall;
    if Inv(current) { StepKeepsInv(current, input1, input2, h); }
    next := current.(tick := (current.tick + 1) % 0x1_0000_0000_0000_0000);
    if next.gameOver { return; }
    next := UpdatePaddles(next, input1, input2, h);
    next := UpdateBall(next, h);
    next := UpdateHit1(next, h);
    next := UpdateHit2(next, h);
    if next.ballX < 0 {
      next := next.(score2 := (next.score2 + 1) % 256);
      next := ResetBallFields(next, h, 2);
    } else if next.ballX > FieldWidth {
      next := next.(score1 := (next.score1 + 1) % 256);
      next := ResetBallFields(next, h, 1);
    }
    if next.score1 >= WinScore {
      next := next.(gameOver := true, winner := 1);
    } else if next.score2 >= WinScore {
      next := next.(gameOver := true, winner := 2);
    }
  }

  // ---------- the invariant ----------

  /** Ticks needed to have been sped up to vertical speed v since the last paddle or serve: each
      unit of speed above 9 costs one full height of the field at the speed before it. */
  ghost function Toll(v: nat): (t: nat) {
    if v <= 9 then 0 else Toll(v - 1) + 124 / (v - 1)
  }

  /** Distance covered since the wall the ball comes from. */
  function Travelled(y: int, dy: int): int {
    if dy > 0 then y else FieldHeight - BallSize - y
  }

  /** Columns covered since the side the ball comes from. */
  function Progress(x: int, dx: int): int {
    if dx > 0 then x - (PaddleMargin + PaddleWidth + 1)
    else FieldWidth - PaddleMargin - PaddleWidth - BallSize - 1 - x
  }

  /** Vertical speed v, with the given distance covered, is affordable after this much progress. */
  ghost predicate Affordable(v: nat, travelled: int, progress: int) {
    v <= MaxBallSpeed || (Toll(v) <= progress && v * (progress - Toll(v)) >= travelled)
  }

  ghost predicate Ball(s: State) {
    && 1 <= Abs(s.ballDX) <= MaxBallSpeed && 0 <= s.ballX <= FieldWidth
    && (s.ballDX > 0 ==> s.ballX >= 13) && (s.ballDX < 0 ==> s.ballX <= 239)
    && 0 <= s.ballY <= FieldHeight - BallSize
    && Affordable(Abs(s.ballDY), Travelled(s.ballY, s.ballDY), Progress(s.ballX, s.ballDX))
  }

  ghost predicate PaddlesOnField(s: State) {
    0 <= s.paddle1Y <= FieldHeight - PaddleHeight && 0 <= s.paddle2Y <= FieldHeight - PaddleHeight
  }

  /** The game is over exactly when one player has the winning score. */
  ghost predicate Scores(s: State) {
    && s.score1 <= WinScore && s.score2 <= WinScore && !(s.score1 == WinScore && s.score2 == WinScore)
    && (s.gameOver <==> s.score1 == WinScore || s.score2 == WinScore)
    && s.winner == if s.score1 == WinScore then 1 else if s.score2 == WinScore then 2 else 0
  }

  ghost predicate Inv(s: State) {
    Ball(s) && PaddlesOnField(s) && Scores(s)
  }

  lemma {:induction false} TollMonotone(u: nat, v: nat)
    requires u <= v
    ensures Toll(u) <= Toll(v)
    decreases v - u
  {
    if u < v {
      TollMonotone(u, v - 1);
      if v > 9 {
        hide Toll;
        var f := TollStep(v - 1);
      }
    }
  }

  lemma {:induction false} TollSegment(u: nat, v: nat, k: nat)
    requires 9 <= u <= v && k * v <= 124 + k
    ensures Toll(v) >= Toll(u) + k * (v - u)
    decreases v - u
  {
    hide Toll;
    if u < v {
      Distribute(k, v, u);
      TollSegment(u, v - 1, k);
      var f := TollStep(v - 1);
      if f < k { MulMono(v - 1, k, f + 1); }
    }
  }

  lemma Distribute(k: nat, v: nat, u: nat)
    ensures k * (v - 1) == k * v - k && k * (v - u) == k * (v - 1 - u) + k
  {
  }

  lemma TollOfHundredAndOne()
    ensures Toll(101) >= 261
  {
    hide Toll;
    TollSegment(9, 10, 13);
    TollSegment(10, 11, 12);
    TollSegment(11, 12, 11);
    TollSegment(12, 13, 10);
    TollSegment(13, 14, 9);
    TollSegment(14, 16, 8);
    TollSegment(16, 18, 7);
    TollSegment(18, 21, 6);
    TollSegment(21, 25, 5);
    TollSegment(25, 32, 4);
    TollSegment(32, 42, 3);
    TollSegment(42, 63, 2);
    TollSegment(63, 101, 1);
  }

  /** A crossing of the field is too short for vertical speed 101. */
  lemma SpeedBound(v: nat, travelled: int, progress: int)
    requires Affordable(v, travelled, progress) && progress <= 243
    ensures v <= 100
  {
    hide Toll;
    if v > 100 {
      TollMonotone(101, v);
      TollOfHundredAndOne();
    }
  }

  /** Flying on costs as much progress as it covers distance. */
  lemma FlyOn(v: nat, t: int, p: int, p': int)
    requires Affordable(v, t, p) && p' >= p + 1
    ensures Affordable(v, t + v, p')
  {
    hide Toll;
    if v > MaxBallSpeed {
      MulMono(v, p' - Toll(v), p - Toll(v) + 1);
    }
  }

  /** Bouncing at a high speed: the way left past the wall is paid for at the new speed. */
  lemma BounceFast(v: nat, t: int, p: int, p': int, v': nat)
    requires Affordable(v, t, p) && 9 <= v <= 100 && t + v >= 124 && t <= 124 && p' >= p + 1
    requires v - 1 <= v' <= v + 1 && v' > MaxBallSpeed
    ensures Affordable(v', t + v - 124, p')
  {
    hide Toll;
    var a, b, over := p - Toll(v), p' - Toll(v'), t + v - 124;
    if v' == v + 1 {
      var f := TollStep(v);
      BounceUp(v, a, f, b, over);
    } else if v' == v {
      BounceSame(v, a, b, over);
    } else {
      var f := TollStep(v');
      BounceDown(v', a, f, b, over);
    }
  }

  lemma TollStep(v: nat) returns (f: nat)
    requires v >= 9
    ensures Toll(v + 1) == Toll(v) + f && v * f <= 124 < v * f + v
  {
    f := 124 / v;
  }

  lemma BounceAffordable(v: nat, t: int, p: int, p': int, v': nat)
    requires Affordable(v, t, p) && 0 < v <= 100 && t + v >= 124 && t <= 124 && p' >= p + 1 && p' >= 1
    requires v - 1 <= v' <= v + 1
    ensures Affordable(v', t + v - 124, p')
  {
    if v >= 9 && v' > MaxBallSpeed {
      BounceFast(v, t, p, p', v');
    } else if v' > MaxBallSpeed {
      assert Toll(9) == 0;
    }
  }

  lemma BounceUp(v: nat, a: int, f: nat, b: int, over: nat)
    requires v > 0 && v * a >= over + 124 - v && v * f <= 124 && b >= a + 1 - f
    ensures b >= 0 && (v + 1) * b >= over
  {
    assert v * (a + 1 - f) == v * a + v - v * f >= over;
    assert a + 1 - f >= 0;
    MulMono(v, b, a + 1 - f);
    assert (v + 1) * b == v * b + b;
  }

  lemma BounceSame(v: nat, a: int, b: int, over: nat)
    requires v > 0 && v * a >= over + 124 - v && b >= a + 1
    ensures b >= 0 && v * b >= over
  {
    MulMono(v, b, a + 1);
    assert v * (a + 1) == v * a + v;
  }

  lemma BounceDown(u: nat, a: int, f: nat, b: int, over: nat)
    requires 0 < u < 124 && (u + 1) * a >= over + 124 - (u + 1) && over <= u + 1 && u * f + u > 124 && b >= a + 1 + f
    ensures b >= 0 && u * b >= over
  {
    assert a >= 0;
    MulMono(u, b, 1 + f);
    assert u * (1 + f) == u + u * f;
  }

  // ---------- preservation, stage by stage ----------

  /** After the ball has moved and turned at the walls: still on the field vertically, but possibly
      beyond the paddles horizontally. */
  ghost predicate InFlight(s: State) {
    && 1 <= Abs(s.ballDX) <= MaxBallSpeed
    && (s.ballDX > 0 ==> 14 <= s.ballX <= 264) && (s.ballDX < 0 ==> -8 <= s.ballX <= 238)
    && 0 <= s.ballY <= FieldHeight - BallSize && Abs(s.ballDY) <= 101
    && (0 <= s.ballX <= FieldWidth ==>
          Affordable(Abs(s.ballDY), Travelled(s.ballY, s.ballDY), Progress(s.ballX, s.ballDX)))
  }

  /** The vertical part of a tick keeps the ball on the field and its speed affordable. */
  lemma WallsKept(s: State, m: State, h: Hash)
    requires Ball(s) && Abs(s.ballDY) <= 100
    requires m.ballY == s.ballY + s.ballDY && m.ballDY == s.ballDY && m.ballDX * s.ballDX > 0
    requires Progress(m.ballX, m.ballDX) >= Progress(s.ballX, s.ballDX) + 1
    ensures var r := Walls(m, h);
            && r == m.(ballY := r.ballY, ballDY := r.ballDY)
            && 0 <= r.ballY <= FieldHeight - BallSize && Abs(r.ballDY) <= 101
            && Affordable(Abs(r.ballDY), Travelled(r.ballY, r.ballDY), Progress(m.ballX, m.ballDX))
  {
    hide Toll, Affordable;
    var v, t, p := Abs(s.ballDY), Travelled(s.ballY, s.ballDY), Progress(s.ballX, s.ballDX);
    var p' := Progress(m.ballX, m.ballDX);
    var r := Walls(m, h);
    if m.ballY <= 0 || m.ballY >= FieldHeight - BallSize {
      if v > 0 {
        BounceAffordable(v, t, p, p', Abs(r.ballDY));
        assert Abs(r.ballDY) > 0 ==> Travelled(r.ballY, r.ballDY) == t + v - 124;
      }
      if Abs(r.ballDY) <= MaxBallSpeed { SlowIsAffordable(Abs(r.ballDY), Travelled(r.ballY, r.ballDY), p'); }
    } else {
      FlyOn(v, t, p, p');
      if v <= MaxBallSpeed { SlowIsAffordable(v, Travelled(r.ballY, r.ballDY), p'); }
    }
  }

  lemma SlowIsAffordable(v: nat, t: int, p: int)
    requires v <= MaxBallSpeed
    ensures Affordable(v, t, p)
  {
  }

  lemma FlightKept(s: State, h: Hash)
    requires Ball(s)
    ensures InFlight(Walls(MoveBall(s, h), h))
    ensures var r := Walls(MoveBall(s, h), h);
            r == s.(ballX := s.ballX + s.ballDX, ballY := r.ballY, ballDX := r.ballDX, ballDY := r.ballDY)
  {
    hide Toll, Affordable;
    SpeedBound(Abs(s.ballDY), Travelled(s.ballY, s.ballDY), Progress(s.ballX, s.ballDX));
    WallsKept(s, MoveBall(s, h), h);
  }

  lemma PaddlesAndScoreKeep(s: State, h: Hash)
    requires InFlight(s) && PaddlesOnField(s)
    requires s.score1 < 255 && s.score2 < 255
    ensures var r := Score(HitPaddle2(HitPaddle1(s, h), h), h);
            && Ball(r)
            && r == s.(ballX := r.ballX, ballY := r.ballY, ballDX := r.ballDX, ballDY := r.ballDY,
                       score1 := r.score1, score2 := r.score2)
            && r.score1 == s.score1 + (if s.ballX > FieldWidth then 1 else 0)
            && r.score2 == s.score2 + (if s.ballX < 0 then 1 else 0)
  {
    hide Toll;
  }

  /** Every tick keeps the invariant, whatever the inputs and the hash. */
  lemma StepKeepsInv(s: State, input1: Input, input2: Input, h: Hash)
    requires Inv(s)
    ensures Inv(ComputeNextState(s, input1, input2, h))
  {
    hide Toll, Affordable, Rally;
    if !s.gameOver {
      var next := s.(tick := (s.tick + 1) % 0x1_0000_0000_0000_0000);
      RallyKeeps(Paddles(next, input1, input2, h), h);
    }
  }

  lemma RallyKeeps(s: State, h: Hash)
    requires Ball(s) && PaddlesOnField(s) && s.score1 < 255 && s.score2 < 255
    ensures var r := Rally(s, h);
            && Ball(r)
            && r == s.(ballX := r.ballX, ballY := r.ballY, ballDX := r.ballDX, ballDY := r.ballDY,
                       score1 := r.score1, score2 := r.score2)
            && r.score1 == s.score1 + (if s.ballX + s.ballDX > FieldWidth then 1 else 0)
            && r.score2 == s.score2 + (if s.ballX + s.ballDX < 0 then 1 else 0)
  {
    hide Toll, Affordable;
    FlightKept(s, h);
    PaddlesAndScoreKeep(Walls(MoveBall(s, h), h), h);
  }

  // ---------- a tick in plain terms ----------

  /** Up moves a paddle up by six, down moves it down by six, and the hash nudges it by one at most; it
      stops at the edges of the field. */
  lemma PaddleTick(y: int, input: Input, h: int)
    requires 0 <= y <= 108 && 0 <= h < 256
    ensures input == InputUp ==> MovePaddle(y, input, h) == Max(0, y - 6 + h % 3 - 1)
    ensures input == InputDown ==> MovePaddle(y, input, h) == Min(108, y + 6 + h % 3 - 1)
    ensures input == InputNone ==> MovePaddle(y, input, h) == Max(0, Min(108, y + h % 3 - 1))
  {
  }

  /** Both paddles of a tick, each by its own player and its own byte of the hash. */
  lemma PaddlesTick(s: State, input1: Input, input2: Input, h: Hash)
    requires Inv(s) && !s.gameOver
    ensures var n := ComputeNextState(s, input1, input2, h);
            && n.paddle1Y == MovePaddle(s.paddle1Y, input1, h[0]) && n.paddle2Y == MovePaddle(s.paddle2Y, input2, h[1])
  {
    hide Toll, Affordable, Rally, MovePaddle;
    var next := s.(tick := (s.tick + 1) % 0x1_0000_0000_0000_0000);
    var p := Paddles(next, input1, input2, h);
    assert PaddlesOnField(p) by { PaddleTick(s.paddle1Y, input1, h[0]); PaddleTick(s.paddle2Y, input2, h[1]); PaddleRange(s.paddle1Y, input1, h[0]); PaddleRange(s.paddle2Y, input2, h[1]); }
    RallyKeeps(p, h);
  }

  lemma PaddleRange(y: int, input: Input, h: int)
    ensures 0 <= MovePaddle(y, input, h) <= 108
  {
  }

  /** The free flight of a tick: one step along, the speed across changed by at most one, and a turn at
      the top or bottom wall by reflection, with the vertical speed reversed and changed by at most one. */
  lemma FlightTick(s: State, h: Hash)
    requires Ball(s)
    ensures var r, y := Walls(MoveBall(s, h), h), s.ballY + s.ballDY;
            var change := if h[2] % 5 == 0 then -1 else if h[2] % 5 == 4 then 1 else 0;
            && r.ballX == s.ballX + s.ballDX
            && Abs(r.ballDX) == Max(1, Min(8, Abs(s.ballDX) + change)) && (r.ballDX > 0 <==> s.ballDX > 0)
            && (0 < y < 124 ==> r.ballY == y && r.ballDY == s.ballDY)
            && (y <= 0 ==> r.ballY == -y && r.ballDY == -s.ballDY + h[4] % 3 - 1)
            && (y >= 124 ==> r.ballY == 248 - y && r.ballDY == -s.ballDY + h[5] % 3 - 1)
  {
    hide Toll, Affordable;
    SpeedBound(Abs(s.ballDY), Travelled(s.ballY, s.ballDY), Progress(s.ballX, s.ballDX));
  }

  /** At the left paddle: a ball level with it and touching it comes back from its face, one faster, up
      to eight, with a spin given by where it hit; otherwise nothing changes. */
  lemma LeftHit(s: State, h: Hash)
    requires InFlight(s) && PaddlesOnField(s)
    ensures var r := HitPaddle1(s, h);
            if 4 <= s.ballX <= 12 && s.paddle1Y - 4 <= s.ballY <= s.paddle1Y + 20 then
              && r.ballX == 13 && r.ballDX == (if s.ballDX > -8 then 1 - s.ballDX else 8) && r.ballY == s.ballY
              && r.ballDY == Max(-8, Min(8, s.ballDY + Quo((s.ballY - s.paddle1Y + 2) * 6, 20) - 3 + h[6] % 5 - 2))
              && r.paddle1Y == s.paddle1Y && r.paddle2Y == s.paddle2Y
            else r == s
  {
    hide Toll, Affordable;
  }

  /** At the right paddle likewise. */
  lemma RightHit(s: State, h: Hash)
    requires InFlight(s) && PaddlesOnField(s)
    ensures var r := HitPaddle2(s, h);
            if 240 <= s.ballX <= 248 && s.paddle2Y - 4 <= s.ballY <= s.paddle2Y + 20 then
              && r.ballX == 239 && r.ballDX == (if s.ballDX < 8 then -1 - s.ballDX else -8) && r.ballY == s.ballY
              && r.ballDY == Max(-8, Min(8, s.ballDY + Quo((s.ballY - s.paddle2Y + 2) * 6, 20) - 3 + h[7] % 5 - 2))
              && r.paddle1Y == s.paddle1Y && r.paddle2Y == s.paddle2Y
            else r == s
  {
    hide Toll, Affordable;
  }

  /** A serve: from the middle, at the initial speed, towards the player who has just scored; never level. */
  lemma ServeTick(s: State, h: Hash)
    requires s.ballX < 0 || s.ballX > 256
    ensures var r := Score(s, h);
            && r.ballX == 128 && r.ballY == 64 && r.ballDX == (if s.ballX < 0 then 3 else -3)
            && r.ballDY == (if h[8] % 5 == 2 then 1 else h[8] % 5 - 2) && r.ballDY != 0
  {
  }

  datatype Turn = Turn(input1: Input, input2: Input, hash: Hash)

  function Play(turns: seq<Turn>): State {
    if turns == [] then NewState
    else
      var t := turns[|turns| - 1];
      ComputeNextState(Play(turns[..|turns| - 1]), t.input1, t.input2, t.hash)
  }

  /** The state after any number of ticks from a new game satisfies the invariant: the ball is on
      the field, its speed in range, the paddles on the field and the score consistent. */
  lemma {:induction false} EveryGameKeepsInv(turns: seq<Turn>)
    ensures Inv(Play(turns)) && Play([]) == State(128, 64, 3, 2, 54, 54, 0, 0, 0, false, 0)
    ensures 0 <= Play(turns).ballY <= 124 && Abs(Play(turns).ballDY) <= 100
  {
    if turns != [] {
      var t := turns[|turns| - 1];
      EveryGameKeepsInv(turns[..|turns| - 1]);
      StepKeepsInv(Play(turns[..|turns| - 1]), t.input1, t.input2, t.hash);
    }
    var s := Play(turns);
    SpeedBound(Abs(s.ballDY), Travelled(s.ballY, s.ballDY), Progress(s.ballX, s.ballDX));
  }

  /** The ball cannot fly past a paddle untested: a step that takes it from in front of a paddle to
      or past the paddle's edge lands in the zone where the hit test runs. */
  lemma NoTunnelling(s: State, input1: Input, input2: Input, h: Hash)
    requires Inv(s) && !s.gameOver
    ensures var m := Walls(MoveBall(Paddles(s, input1, input2, h), h), h);
            && (s.ballX >= 13 && m.ballX <= 12 ==> InZone1(m.ballX) && s.ballDX < 0)
            && (s.ballX <= 239 && m.ballX >= 240 ==> InZone2(m.ballX) && s.ballDX > 0)
  {
    hide Toll, Affordable;
    FlightKept(Paddles(s, input1, input2, h), h);
  }

  /** A point is scored only when the ball left the field, at most one per tick, and never after
      the game is over; otherwise both scores stand. */
  lemma ScoringStep(s: State, input1: Input, input2: Input, h: Hash)
    requires Inv(s)
    ensures var n := ComputeNextState(s, input1, input2, h);
            var x := s.ballX + s.ballDX;
            && (s.gameOver ==> n == s.(tick := n.tick))
            && (!s.gameOver ==> n.score1 == s.score1 + (if x > FieldWidth then 1 else 0))
            && (!s.gameOver ==> n.score2 == s.score2 + (if x < 0 then 1 else 0))
  {
    hide Toll, Affordable;
    hide Rally;
    if !s.gameOver {
      RallyKeeps(Paddles(s.(tick := (s.tick + 1) % 0x1_0000_0000_0000_0000), input1, input2, h), h);
    }
  }
}
