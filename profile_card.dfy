/** The profile card's 3D tilt engine: a smoothed pointer position
    (`currentX`, `currentY`) follows a target (`targetX`, `targetY`) frame by
    frame, is turned into the card's CSS variables, and the per-frame loop
    stops itself once the position has caught up and the page has no focus. */
module ProfileCard {
  import opened Utilities

  const DefaultTau: real := 0.14
  const InitialTau: real := 0.6
  /** How long after start-up the slower initial glide lasts, in milliseconds. */
  const InitialGlide: real := 1200.0
  /** Per-axis distance under which `step` may stop. */
  const StopDistance: real := 0.05
  /** Radius of the `pointerleave` settle check, and its square. */
  const SettleRadius: real := 0.6
  const SettleRadiusSq: real := 0.36
  const DefaultWidth: nat := 300
  const InitialInsetX: real := 70.0
  const InitialY: real := 60.0

  /** The numbers `setVarsFromXY` writes: pointer position in percent, the
      background position, the pointer's fraction from top and left, and the
      two rotations in degrees (before `pcRound`). */
  datatype CardVars = CardVars(px: real, py: real, backgroundX: real, backgroundY: real,
                               fromTop: real, fromLeft: real, rotateX: real, rotateY: real)

  predicate VarsInRange(v: CardVars) {
    && 0.0 <= v.px <= 100.0 && 0.0 <= v.py <= 100.0
    && 35.0 <= v.backgroundX <= 65.0 && 35.0 <= v.backgroundY <= 65.0
    && 0.0 <= v.fromTop <= 1.0 && 0.0 <= v.fromLeft <= 1.0
    && -10.0 <= v.rotateX <= 10.0 && -12.5 <= v.rotateY <= 12.5
  }

  /** `clientWidth || 1`: a zero client size counts as one pixel. */
  function OrOne(n: nat): (r: nat)
    ensures r > 0 && (n > 0 ==> r == n)
  {
    if n > 0 then n else 1
  }

  /** `setVarsFromXY(x, y)` on a shell of the given client size. Every output
      lies in its range whatever the position, the percentages are the
      position scaled to the shell where it lies inside, and the rotations
      are a fixed linear image of the offset from the centre, the x rotation
      inverted. */
  function SetVarsFromXY(x: real, y: real, clientW: nat, clientH: nat): (v: CardVars)
    ensures VarsInRange(v)
    ensures var sx := (100.0 / OrOne(clientW) as real) * x;
            0.0 <= sx <= 100.0 ==> v.px == sx
    ensures var sy := (100.0 / OrOne(clientH) as real) * y;
            0.0 <= sy <= 100.0 ==> v.py == sy
    ensures var sx := (100.0 / OrOne(clientW) as real) * x;
            (sx < 0.0 ==> v.px == 0.0) && (sx > 100.0 ==> v.px == 100.0)
    ensures var sy := (100.0 / OrOne(clientH) as real) * y;
            (sy < 0.0 ==> v.py == 0.0) && (sy > 100.0 ==> v.py == 100.0)
    ensures v.fromLeft * 100.0 == v.px && v.fromTop * 100.0 == v.py
    ensures v.rotateX * 5.0 == 50.0 - v.px && v.rotateY * 4.0 == v.py - 50.0
    ensures v.backgroundX - 35.0 == (v.px * 30.0) / 100.0
    ensures v.backgroundY - 35.0 == (v.py * 30.0) / 100.0
  {
    var w, h := OrOne(clientW) as real, OrOne(clientH) as real;
    var px := Clamp((100.0 / w) * x, 0.0, 100.0);
    var py := Clamp((100.0 / h) * y, 0.0, 100.0);
    var cx, cy := px - 50.0, py - 50.0;
    CardVars(px, py, Remap(px, 0.0, 100.0, 35.0, 65.0), Remap(py, 0.0, 100.0, 35.0, 65.0),
             py / 100.0, px / 100.0, -(cx / 5.0), cy / 4.0)
  }

  /** A pointer at the middle of the shell leaves the card flat, with the
      background centred. */
  lemma CentreIsFlat(clientW: nat, clientH: nat)
    requires clientW > 0 && clientH > 0
    ensures var v := SetVarsFromXY(clientW as real / 2.0, clientH as real / 2.0, clientW, clientH);
            v.px == 50.0 && v.py == 50.0 && v.rotateX == 0.0 && v.rotateY == 0.0
            && v.backgroundX == 50.0 && v.backgroundY == 50.0
  {
    HalfOfWidth(clientW as real);
    HalfOfWidth(clientH as real);
  }

  lemma HalfOfWidth(w: real)
    requires w > 0.0
    ensures (100.0 / w) * (w / 2.0) == 50.0
  {
    MulDiv(100.0 / w, w, 2.0);
    assert (100.0 / w) * w == 100.0;
  }

  /** The time constant of a frame: 0.6 s until `initialUntil`, 0.14 s from then on. */
  function Tau(ts: real, initialUntil: real): (tau: real)
    ensures tau > 0.0
    ensures ts < initialUntil <==> tau == InitialTau
    ensures ts >= initialUntil <==> tau == DefaultTau
  {
    if ts < initialUntil then InitialTau else DefaultTau
  }

  /** `dt` of a `step` in seconds; a `lastTs` of 0 marks the first frame
      after `start`, which therefore has `dt` 0. */
  function StepDt(lastTs: real, ts: real): (dt: real)
    ensures lastTs == 0.0 ==> dt == 0.0
    ensures lastTs != 0.0 ==> dt * 1000.0 == ts - lastTs
    ensures lastTs != 0.0 && ts >= lastTs ==> dt >= 0.0
  {
    var last := if lastTs == 0.0 then ts else lastTs;
    (ts - last) / 1000.0
  }

  function Abs(x: real): real { if x < 0.0 then -x else x }

  /** The `stillFar` test of `step`: a per-axis test, so a position still
      far lies outside the circle of radius 0.05 around the target. */
  function StillFar(cx: real, cy: real, tx: real, ty: real): (far: bool)
    ensures far ==> (tx - cx) * (tx - cx) + (ty - cy) * (ty - cy) > StopDistance * StopDistance
  {
    SquareAbove(tx - cx, StopDistance);
    SquareAbove(ty - cy, StopDistance);
    Abs(tx - cx) > StopDistance || Abs(ty - cy) > StopDistance
  }

  /** The `pointerleave` settle test, `hypot(dx, dy) < 0.6`, squared: a
      settled position is within 0.6 of the target on each axis. */
  function Settled(cx: real, cy: real, tx: real, ty: real): (settled: bool)
    ensures settled ==> Abs(tx - cx) < SettleRadius && Abs(ty - cy) < SettleRadius
  {
    SquareAbove(tx - cx, SettleRadius);
    SquareAbove(ty - cy, SettleRadius);
    (tx - cx) * (tx - cx) + (ty - cy) * (ty - cy) < SettleRadiusSq
  }

  /** A number at least `b` away from 0 has a square at least `b * b`, and
      strictly more when it is strictly further. */
  lemma SquareAbove(d: real, b: real)
    requires b >= 0.0
    ensures Abs(d) > b ==> d * d > b * b
    ensures Abs(d) >= b ==> d * d >= b * b
  {
    var a := Abs(d);
    assert d * d == a * a;
    if a >= b {
      MulNonneg(a - b, a + b);
      assert a * a - b * b == (a - b) * (a + b);
    }
    if a > b {
      MulStrict(a + b, 0.0, a - b);
      assert a * a - b * b == (a + b) * (a - b);
    }
  }

  /** A position close enough for `step` to stop also passes the settle
      check, so a card whose loop has stopped is seen as settled. */
  lemma StopImpliesSettled(cx: real, cy: real, tx: real, ty: real)
    ensures !StillFar(cx, cy, tx, ty) ==> Settled(cx, cy, tx, ty)
  {
    if !StillFar(cx, cy, tx, ty) {
      SquareBelow(tx - cx);
      SquareBelow(ty - cy);
    }
  }

  lemma SquareBelow(d: real)
    requires Abs(d) <= StopDistance
    ensures d * d <= StopDistance * StopDistance
  {
    var a := Abs(d);
    assert d * d == a * a;
    MulNonneg(StopDistance - a, StopDistance + a);
  }

  /** The converse fails: a position can pass the settle check while `step`
      keeps running, e.g. 0.3 px off on one axis. */
  lemma SettledDoesNotStop()
    ensures Settled(0.0, 0.0, 0.3, 0.0) && StillFar(0.0, 0.0, 0.3, 0.0)
  {
  }

  /** The tilt engine's state, one per profile card. `active` is the shell's
      `active` class, `settling` whether a settle check is pending. */
  class TiltCard {
    var currentX: real
    var currentY: real
    var targetX: real
    var targetY: real
    var running: bool
    var lastTs: real
    var initialUntil: real
    var active: bool
    var settling: bool
    var vars: CardVars

    /** A stopped loop always has its frame clock cleared, and the written
        variables are always in range. */
    ghost predicate Valid()
      reads this
    {
      (!running ==> lastTs == 0.0) && VarsInRange(vars)
    }

    /** Start-up: the position starts near the top right corner, the target
        is the centre, the loop runs and the slow glide lasts 1.2 s from `now`. */
    constructor (clientW: nat, clientH: nat, now: real)
      ensures Valid()
      ensures currentX == WidthOr300(clientW) - InitialInsetX && currentY == InitialY
      ensures targetX == clientW as real / 2.0 && targetY == clientH as real / 2.0
      ensures running && lastTs == 0.0 && initialUntil == now + InitialGlide
      ensures !active && !settling
      ensures vars == SetVarsFromXY(currentX, currentY, clientW, clientH)
    {
      var initX := WidthOr300(clientW) - InitialInsetX;
      currentX, currentY := initX, InitialY;
      active, settling := false, false;
      vars := SetVarsFromXY(initX, InitialY, clientW, clientH);
      targetX := clientW as real / 2.0;
      targetY := clientH as real / 2.0;
      running, lastTs := true, 0.0;
      initialUntil := now + InitialGlide;
    }

    /** `start`: nothing when already running; otherwise run with a fresh
        frame clock. */
    method Start()
      requires Valid()
      modifies this
      ensures Valid()
      ensures running
      ensures old(running) ==> lastTs == old(lastTs)
      ensures lastTs == 0.0 || old(running)
      ensures currentX == old(currentX) && currentY == old(currentY)
      ensures targetX == old(targetX) && targetY == old(targetY)
      ensures initialUntil == old(initialUntil) && active == old(active)
      ensures settling == old(settling) && vars == old(vars)
    {
      if running {
        return;
      }
      running := true;
      lastTs := 0.0;
    }

    /** `setTarget(x, y)`: aim at a new point and make sure the loop runs. */
    method SetTarget(x: real, y: real)
      requires Valid()
      modifies this
      ensures Valid()
      ensures targetX == x && targetY == y && running
      ensures old(running) ==> lastTs == old(lastTs)
      ensures !old(running) ==> lastTs == 0.0
      ensures currentX == old(currentX) && currentY == old(currentY)
      ensures initialUntil == old(initialUntil) && active == old(active)
      ensures settling == old(settling) && vars == old(vars)
    {
      targetX, targetY := x, y;
      Start();
    }

    /** `toCenter`: aim at the middle of the shell. */
    method ToCenter(clientW: nat, clientH: nat)
      requires Valid()
      modifies this
      ensures Valid()
      ensures targetX == clientW as real / 2.0 && targetY == clientH as real / 2.0 && running
      ensures old(running) ==> lastTs == old(lastTs)
      ensures !old(running) ==> lastTs == 0.0
      ensures currentX == old(currentX) && currentY == old(currentY)
      ensures initialUntil == old(initialUntil) && active == old(active)
      ensures settling == old(settling) && vars == old(vars)
    {
      SetTarget(clientW as real / 2.0, clientH as real / 2.0);
    }

    /** One `step` frame at time `ts`, on a shell of the given client size,
        with `hasFocus` the answer of `document.hasFocus()`; `blend(dt, tau)`
        stands for `1 - exp(-dt / tau)`. Each axis moves toward its target
        and, for a time that does not run backwards, never past it; the very
        first frame after `start` moves nothing; the loop stops exactly when
        both axes are within 0.05 of the target and the page lacks focus. */
    method Step(ts: real, hasFocus: bool, clientW: nat, clientH: nat, blend: (real, real) -> real)
      requires Valid() && IsBlend(blend)
      modifies this
      ensures Valid()
      ensures !old(running) ==>
                currentX == old(currentX) && currentY == old(currentY) && !running
                && lastTs == old(lastTs) && vars == old(vars)
      ensures old(running) ==>
                var k := blend(StepDt(old(lastTs), ts), Tau(ts, initialUntil));
                && currentX == Lerp(old(currentX), targetX, k)
                && currentY == Lerp(old(currentY), targetY, k)
                && vars == SetVarsFromXY(currentX, currentY, clientW, clientH)
                && (running <==> StillFar(currentX, currentY, targetX, targetY) || hasFocus)
                && (running ==> lastTs == ts)
      ensures old(running) && (old(lastTs) == 0.0 || ts >= old(lastTs)) ==>
                Between(old(currentX), targetX, currentX) && Between(old(currentY), targetY, currentY)
      ensures old(running) && old(lastTs) == 0.0 ==>
                currentX == old(currentX) && currentY == old(currentY)
      ensures targetX == old(targetX) && targetY == old(targetY)
      ensures initialUntil == old(initialUntil) && active == old(active) && settling == old(settling)
    {
      if !running {
        return;
      }
      var dt := StepDt(lastTs, ts);
      lastTs := ts;
      var tau := Tau(ts, initialUntil);
      var k := blend(dt, tau);
      currentX := Lerp(currentX, targetX, k);
      currentY := Lerp(currentY, targetY, k);
      vars := SetVarsFromXY(currentX, currentY, clientW, clientH);
      if !(StillFar(currentX, currentY, targetX, targetY) || hasFocus) {
        running := false;
        lastTs := 0.0;
      }
    }

    /** `pointerenter` at a point given relative to the shell: mark the card
        active and aim at the pointer. */
    method PointerEnter(x: real, y: real)
      requires Valid()
      modifies this
      ensures Valid()
      ensures active && targetX == x && targetY == y && running
      ensures old(running) ==> lastTs == old(lastTs)
      ensures !old(running) ==> lastTs == 0.0
      ensures currentX == old(currentX) && currentY == old(currentY)
      ensures initialUntil == old(initialUntil)
      ensures settling == old(settling) && vars == old(vars)
    {
      active := true;
      SetTarget(x, y);
    }

    /** `pointermove` at a point given relative to the shell. */
    method PointerMove(x: real, y: real)
      requires Valid()
      modifies this
      ensures Valid()
      ensures targetX == x && targetY == y && running
      ensures old(running) ==> lastTs == old(lastTs)
      ensures !old(running) ==> lastTs == 0.0
      ensures currentX == old(currentX) && currentY == old(currentY)
      ensures initialUntil == old(initialUntil)
      ensures active == old(active) && settling == old(settling) && vars == old(vars)
    {
      SetTarget(x, y);
    }

    /** `pointerleave`: aim back at the centre and (re)arm the settle check. */
    method PointerLeave(clientW: nat, clientH: nat)
      requires Valid()
      modifies this
      ensures Valid()
      ensures targetX == clientW as real / 2.0 && targetY == clientH as real / 2.0
      ensures running && settling
      ensures old(running) ==> lastTs == old(lastTs)
      ensures !old(running) ==> lastTs == 0.0
      ensures currentX == old(currentX) && currentY == old(currentY)
      ensures initialUntil == old(initialUntil)
      ensures active == old(active) && vars == old(vars)
    {
      ToCenter(clientW, clientH);
      settling := true;
    }

    /** One run of the pending settle check: once the position is within
        0.6 px of the target the card stops being active and the check is
        no longer pending; otherwise it stays pending. */
    method CheckSettle()
      requires Valid()
      modifies this
      ensures Valid()
      ensures old(settling) && Settled(currentX, currentY, targetX, targetY) ==> !active && !settling
      ensures !(old(settling) && Settled(currentX, currentY, targetX, targetY)) ==>
                active == old(active) && settling == old(settling)
      ensures currentX == old(currentX) && currentY == old(currentY)
      ensures targetX == old(targetX) && targetY == old(targetY)
      ensures running == old(running) && lastTs == old(lastTs) && vars == old(vars)
      ensures initialUntil == old(initialUntil)
    {
      if settling && Settled(currentX, currentY, targetX, targetY) {
        active := false;
        settling := false;
      }
    }
  }

  /** `(clientWidth || 300)` as a number. */
  function WidthOr300(clientW: nat): (r: real)
    ensures clientW > 0 ==> r == clientW as real
    ensures clientW == 0 ==> r == DefaultWidth as real
  {
    if clientW > 0 then clientW as real else DefaultWidth as real
  }
}
