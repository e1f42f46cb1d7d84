/** The particle canvas of script.js (lines 96-224): a starfield that is
    rebuilt on every resize, shooting stars and rocket trails spawned by two
    interval timers, and the per-frame pass of `animateCanvas` that moves every
    entity, takes a fixed step off its `life` and splices out the dead ones.

    Every `Math.random()` sample is an injected value carried by a "draw"
    record; the star draws and the rocket's speed and climb samples are
    required to lie in [0, 1), the others are unconstrained. The cosine and
    sine of a shooting star's heading (`Math.PI / 6 + 0.3 * u`) are injected
    with its draw. */
module Starfield {
  import opened Utilities

  /** `Math.PI` as a double. */
  const Pi: real := 3.141592653589793
  /** `isMobile()` holds up to this viewport width. */
  const MobileMaxWidth: nat := 768
  const DesktopStarCount: nat := 200
  const MobileStarCount: nat := 80
  /** Star layers drift with scroll at this rate, times their depth. */
  const ScrollParallax: real := 0.05
  /** Life lost per frame by a shooting star, a rocket trail and an exhaust puff. */
  const ShootingDecay: real := 0.015
  const RocketDecay: real := 0.005
  const PuffDecay: real := 0.025
  /** A surviving trail emits a puff when its random sample exceeds this. */
  const ExhaustThreshold: real := 0.3

  datatype Star = Star(x: real, y: real, size: real, alpha: real,
                       twinkleSpeed: real, twinklePhase: real, depth: real)

  datatype ShootingStar = ShootingStar(x: real, y: real, len: real, speed: real,
                                       cosAngle: real, sinAngle: real, life: real)

  /** An exhaust puff, owned by the rocket trail that emitted it. */
  datatype Puff = Puff(x: real, y: real, vx: real, vy: real, life: real, size: real)

  datatype RocketTrail = RocketTrail(x: real, y: real, vx: real, vy: real,
                                     life: real, particles: seq<Puff>)

  predicate Unit(u: real) { 0.0 <= u < 1.0 }

  /** The seven samples `initCanvas` draws for one star. */
  datatype StarDraw = StarDraw(x: real, y: real, size: real, alpha: real,
                               twinkleSpeed: real, twinklePhase: real, depth: real)
  {
    predicate Valid() {
      Unit(x) && Unit(y) && Unit(size) && Unit(alpha) && Unit(twinkleSpeed)
      && Unit(twinklePhase) && Unit(depth)
    }
  }

  /** The samples of `spawnShootingStar`, with the heading given by its cosine and sine. */
  datatype ShootingDraw = ShootingDraw(x: real, y: real, len: real, speed: real,
                                       cosAngle: real, sinAngle: real)

  /** The samples of `spawnRocket`: the side test, the height and the two speeds. */
  datatype RocketDraw = RocketDraw(side: real, y: real, speed: real, climb: real)

  /** The samples one surviving trail draws in a frame: the 30% exhaust test
      and, when it passes, the new puff's velocity and size. */
  datatype ExhaustDraw = ExhaustDraw(chance: real, vx: real, vy: real, size: real)

  predicate Alive(life: real) { 0.0 < life <= 1.0 }

  predicate LiveTrail(rt: RocketTrail) {
    Alive(rt.life) && forall p :: p in rt.particles ==> Alive(p.life)
  }

  function IsMobile(innerWidth: nat): bool { innerWidth <= MobileMaxWidth }

  function StarCount(innerWidth: nat): (n: nat)
    ensures n == MobileStarCount <==> IsMobile(innerWidth)
    ensures n == DesktopStarCount <==> !IsMobile(innerWidth)
  {
    if IsMobile(innerWidth) then MobileStarCount else DesktopStarCount
  }

  /** One star of `initCanvas`, scattered over a `w` by `h` canvas. */
  function MakeStar(d: StarDraw, w: nat, h: nat): (s: Star)
    requires d.Valid()
    ensures 0.0 <= s.x <= w as real && 0.0 <= s.y <= h as real
    ensures 0.3 <= s.size < 2.1 && 0.1 <= s.alpha < 0.7
    ensures 0.005 <= s.twinkleSpeed < 0.02 && 0.0 <= s.twinklePhase < 2.0 * Pi
    ensures 1.0 <= s.depth < 4.0
  {
    MulNonneg(d.x, w as real);
    MulNonneg(1.0 - d.x, w as real);
    MulNonneg(d.y, h as real);
    MulNonneg(1.0 - d.y, h as real);
    Star(d.x * w as real, d.y * h as real, d.size * 1.8 + 0.3, d.alpha * 0.6 + 0.1,
         d.twinkleSpeed * 0.015 + 0.005, d.twinklePhase * Pi * 2.0, d.depth * 3.0 + 1.0)
  }

  /** The per-frame twinkle: the phase advances by the star's own speed. */
  function Twinkle(s: Star): (t: Star)
    ensures t.twinklePhase - s.twinklePhase == s.twinkleSpeed
    ensures t.(twinklePhase := s.twinklePhase) == s
  {
    s.(twinklePhase := s.twinklePhase + s.twinkleSpeed)
  }

  /** The row a star is drawn on: its base row shifted up by the scroll
      parallax and wrapped with `%` into the canvas, `h` added when the
      remainder is negative. A zero-height canvas makes `%` NaN: no row. */
  function WrappedY(s: Star, scrollY: real, h: nat): (r: Option<real>)
    ensures r.Some? <==> h > 0
    ensures r.Some? ==> 0.0 <= r.value < h as real
    ensures r.Some? ==> r.value == Mod(s.y - (scrollY * ScrollParallax) * s.depth, h as real)
  {
    if h == 0 then None
    else
      var m := h as real;
      var x := s.y - (scrollY * ScrollParallax) * s.depth;
      var py := JsRem(x, m);
      var t := Trunc(x / m);
      if py < 0.0 then
        ModUnique(x, m, py + m, t - 1);
        Some(py + m)
      else
        ModUnique(x, m, py, t);
        Some(py)
  }

  /** A shooting star as `spawnShootingStar` creates it on a `w` by `h` canvas. */
  function NewShootingStar(d: ShootingDraw, w: nat, h: nat): (ss: ShootingStar)
    ensures ss.life == 1.0 && Alive(ss.life)
    ensures ss.cosAngle == d.cosAngle && ss.sinAngle == d.sinAngle
  {
    ShootingStar(d.x * w as real * 0.7, d.y * h as real * 0.4, d.len * 80.0 + 40.0,
                 d.speed * 8.0 + 6.0, d.cosAngle, d.sinAngle, 1.0)
  }

  /** A rocket trail as `spawnRocket` creates it: it enters from the left edge
      heading right when the side sample exceeds one half, from the right
      edge heading left otherwise, always climbing. */
  function NewRocketTrail(d: RocketDraw, w: nat, h: nat): (rt: RocketTrail)
    requires Unit(d.speed) && Unit(d.climb)
    ensures rt.life == 1.0 && rt.particles == []
    ensures LiveTrail(rt)
    ensures d.side > 0.5 ==> rt.x == -10.0 && 2.0 <= rt.vx < 5.0
    ensures d.side <= 0.5 ==> rt.x == w as real + 10.0 && -5.0 < rt.vx <= -2.0
    ensures -2.0 < rt.vy <= -0.5
  {
    var side := d.side > 0.5;
    RocketTrail(if side then -10.0 else w as real + 10.0,
                h as real * 0.3 + d.y * h as real * 0.4,
                if side then d.speed * 3.0 + 2.0 else -(d.speed * 3.0 + 2.0),
                -(d.climb * 1.5 + 0.5),
                1.0, [])
  }

  /** One frame of a shooting star: a step of `speed` along its heading. */
  function StepShootingStar(ss: ShootingStar): (t: ShootingStar)
    ensures t.life == ss.life - ShootingDecay
    ensures t.x - ss.x == ss.cosAngle * ss.speed && t.y - ss.y == ss.sinAngle * ss.speed
    ensures t.(x := ss.x, y := ss.y, life := ss.life) == ss
  {
    ss.(x := ss.x + ss.cosAngle * ss.speed, y := ss.y + ss.sinAngle * ss.speed,
        life := ss.life - ShootingDecay)
  }

  /** The shooting-star part of one `animateCanvas` pass: every star steps,
      and exactly those whose life has reached 0 are dropped, the others
      keeping their order. */
  function ShootingPass(s: seq<ShootingStar>): (r: seq<ShootingStar>)
    ensures |r| <= |s|
  {
    if s == [] then []
    else
      var t := StepShootingStar(s[0]);
      (if t.life <= 0.0 then [] else [t]) + ShootingPass(s[1..])
  }

  /** Every star the pass keeps has life left, and a list whose lives are at
      most 1 keeps them so. */
  lemma {:induction false} ShootingPassLive(s: seq<ShootingStar>)
    ensures forall t :: t in ShootingPass(s) ==> t.life > 0.0
    ensures (forall t :: t in s ==> t.life <= 1.0) ==>
              forall t :: t in ShootingPass(s) ==> Alive(t.life)
  {
    if s != [] {
      ShootingPassLive(s[1..]);
      assert forall t :: t in s[1..] ==> t in s;
    }
  }

  /** The pass distributes over concatenation: each entry is handled on its
      own and the survivors stay in their original order. */
  lemma {:induction false} ShootingPassAppend(s: seq<ShootingStar>, u: seq<ShootingStar>)
    ensures ShootingPass(s + u) == ShootingPass(s) + ShootingPass(u)
  {
    if s == [] {
      assert s + u == u;
    } else {
      var t := StepShootingStar(s[0]);
      var h := if t.life <= 0.0 then [] else [t];
      assert (s + u)[0] == s[0];
      assert (s + u)[1..] == s[1..] + u;
      calc {
        ShootingPass(s + u);
        h + ShootingPass(s[1..] + u);
        { ShootingPassAppend(s[1..], u); }
        h + (ShootingPass(s[1..]) + ShootingPass(u));
        (h + ShootingPass(s[1..])) + ShootingPass(u);
        ShootingPass(s) + ShootingPass(u);
      }
    }
  }

  /** An entry survives the pass exactly when its stepped life is still positive. */
  lemma {:induction false} ShootingPassMembers(s: seq<ShootingStar>, t: ShootingStar)
    ensures t in ShootingPass(s) <==>
            exists i :: 0 <= i < |s| && t == StepShootingStar(s[i]) && t.life > 0.0
  {
    if s != [] {
      ShootingPassMembers(s[1..], t);
      var head := StepShootingStar(s[0]);
      if t in ShootingPass(s[1..]) {
        var i :| 0 <= i < |s[1..]| && t == StepShootingStar(s[1..][i]) && t.life > 0.0;
        assert t == StepShootingStar(s[i + 1]);
      }
      if exists i :: 0 <= i < |s| && t == StepShootingStar(s[i]) && t.life > 0.0 {
        var i :| 0 <= i < |s| && t == StepShootingStar(s[i]) && t.life > 0.0;
        if i > 0 {
          assert s[1..][i - 1] == s[i];
        }
      }
    }
  }

  /** One turn of the reverse shooting-star loop keeps its invariant, when
      the star at `i` is spliced out ... */
  lemma ShootingLoopDrop(cur: seq<ShootingStar>, s0: seq<ShootingStar>, i: nat)
    requires i < |s0| && i < |cur|
    requires cur[..i + 1] == s0[..i + 1]
    requires cur[i + 1..] == ShootingPass(s0[i + 1..])
    requires StepShootingStar(cur[i]).life <= 0.0
    ensures |cur[..i] + cur[i + 1..]| >= i
    ensures (cur[..i] + cur[i + 1..])[..i] == s0[..i]
    ensures (cur[..i] + cur[i + 1..])[i..] == ShootingPass(s0[i..])
  {
    assert cur[i] == s0[i];
    assert s0[i..][1..] == s0[i + 1..];
    var c := cur[..i] + cur[i + 1..];
    assert c[..i] == cur[..i];
    assert c[i..] == cur[i + 1..];
  }

  /** ... and when it is replaced by its stepped self. */
  lemma ShootingLoopKeep(cur: seq<ShootingStar>, s0: seq<ShootingStar>, i: nat)
    requires i < |s0| && i < |cur|
    requires cur[..i + 1] == s0[..i + 1]
    requires cur[i + 1..] == ShootingPass(s0[i + 1..])
    requires StepShootingStar(cur[i]).life > 0.0
    ensures cur[i := StepShootingStar(cur[i])][..i] == s0[..i]
    ensures cur[i := StepShootingStar(cur[i])][i..] == ShootingPass(s0[i..])
  {
    assert cur[i] == s0[i];
    assert s0[i..][1..] == s0[i + 1..];
    var c := cur[i := StepShootingStar(cur[i])];
    assert c[..i] == cur[..i];
    assert c[i..] == [StepShootingStar(cur[i])] + cur[i + 1..];
  }

  /** `m` successive passes. */
  function ShootingPasses(s: seq<ShootingStar>, m: nat): seq<ShootingStar> {
    if m == 0 then s else ShootingPass(ShootingPasses(s, m - 1))
  }

  /** A freshly spawned shooting star survives its first 66 passes, each
      moving it one step along its heading and taking 0.015 off its life. */
  lemma {:induction false} FreshShootingStarFlight(ss: ShootingStar, m: nat)
    requires ss.life == 1.0 && m <= 66
    ensures ShootingPasses([ss], m) == [FlightAfter(ss, m)]
  {
    if m > 0 {
      FreshShootingStarFlight(ss, m - 1);
      var prev := FlightAfter(ss, m - 1);
      FlightStep(ss, m);
      assert [prev][1..] == [];
      assert ShootingPass([prev]) == [FlightAfter(ss, m)];
    } else {
      assert FlightAfter(ss, 0) == ss;
    }
  }

  /** One more step extends a flight of `m - 1` steps to `m`. */
  lemma FlightStep(ss: ShootingStar, m: nat)
    requires m > 0
    ensures StepShootingStar(FlightAfter(ss, m - 1)) == FlightAfter(ss, m)
  {
    var k := (m - 1) as real;
    assert m as real == k + 1.0;
    StepMore(k, ss.cosAngle * ss.speed);
    StepMore(k, ss.sinAngle * ss.speed);
  }

  lemma StepMore(k: real, d: real)
    ensures k * d + d == (k + 1.0) * d
  {
  }

  /** Where a shooting star is after `m` steps, with the life they cost. */
  function FlightAfter(ss: ShootingStar, m: nat): ShootingStar {
    ss.(x := ss.x + m as real * (ss.cosAngle * ss.speed),
        y := ss.y + m as real * (ss.sinAngle * ss.speed),
        life := ss.life - m as real * ShootingDecay)
  }

  /** ... and is gone after its 67th, never to return. */
  lemma FreshShootingStarGone(ss: ShootingStar, m: nat)
    requires ss.life == 1.0 && m >= 67
    ensures ShootingPasses([ss], m) == []
  {
    if m == 67 {
      FreshShootingStarFlight(ss, 66);
      var last := FlightAfter(ss, 66);
      assert StepShootingStar(last).life <= 0.0;
      assert ShootingPasses([ss], 67) == ShootingPass([last]);
      assert [last][1..] == [];
    } else {
      FreshShootingStarGone(ss, m - 1);
    }
  }

  /** Ten passes leave a fresh shooting star alone at life 0.85. */
  lemma TenPassesOfAShootingStar(ss: ShootingStar)
    requires ss.life == 1.0
    ensures |ShootingPasses([ss], 10)| == 1 && ShootingPasses([ss], 10)[0].life == 0.85
  {
    FreshShootingStarFlight(ss, 10);
  }

  /** One frame of an exhaust puff. */
  function StepPuff(p: Puff): (q: Puff)
    ensures q.life == p.life - PuffDecay
    ensures q.x - p.x == p.vx && q.y - p.y == p.vy
    ensures q.(x := p.x, y := p.y, life := p.life) == p
  {
    p.(x := p.x + p.vx, y := p.y + p.vy, life := p.life - PuffDecay)
  }

  /** `m` successive puff passes. */
  function PuffPasses(ps: seq<Puff>, m: nat): seq<Puff> {
    if m == 0 then ps else PuffPass(PuffPasses(ps, m - 1))
  }

  /** Where a puff is after `m` steps, with the life they cost. */
  function PuffDrift(p: Puff, m: nat): Puff {
    p.(x := p.x + m as real * p.vx, y := p.y + m as real * p.vy,
       life := p.life - m as real * PuffDecay)
  }

  /** One more step extends a drift of `m - 1` steps to `m`. */
  lemma PuffDriftStep(p: Puff, m: nat)
    requires m > 0
    ensures StepPuff(PuffDrift(p, m - 1)) == PuffDrift(p, m)
  {
    var k := (m - 1) as real;
    assert m as real == k + 1.0;
    StepMore(k, p.vx);
    StepMore(k, p.vy);
  }

  /** A freshly emitted puff survives its first 39 passes, each moving it
      one step and taking 0.025 off its life. */
  lemma {:induction false} FreshPuffAlive(p: Puff, m: nat)
    requires p.life == 1.0 && m <= 39
    ensures PuffPasses([p], m) == [PuffDrift(p, m)]
  {
    if m > 0 {
      FreshPuffAlive(p, m - 1);
      var prev := PuffDrift(p, m - 1);
      PuffDriftStep(p, m);
      assert [prev][1..] == [];
      assert PuffPass([prev]) == [PuffDrift(p, m)];
    } else {
      assert PuffDrift(p, 0) == p;
    }
  }

  /** ... and is gone after its 40th, never to return. */
  lemma {:induction false} FreshPuffGone(p: Puff, m: nat)
    requires p.life == 1.0 && m >= 40
    ensures PuffPasses([p], m) == []
  {
    if m == 40 {
      FreshPuffAlive(p, 39);
      var last := PuffDrift(p, 39);
      assert StepPuff(last).life <= 0.0;
      assert [last][1..] == [];
    } else {
      FreshPuffGone(p, m - 1);
    }
  }

  /** The inner pass over one trail's puffs: each steps, the dead ones go. */
  function PuffPass(ps: seq<Puff>): (r: seq<Puff>)
    ensures |r| <= |ps|
  {
    if ps == [] then []
    else
      var q := StepPuff(ps[0]);
      (if q.life <= 0.0 then [] else [q]) + PuffPass(ps[1..])
  }

  /** Every puff the pass keeps has life left, and a list whose lives are
      at most 1 keeps them so. */
  lemma {:induction false} PuffPassLive(ps: seq<Puff>)
    ensures forall p :: p in PuffPass(ps) ==> p.life > 0.0
    ensures (forall p :: p in ps ==> p.life <= 1.0) ==>
              forall p :: p in PuffPass(ps) ==> Alive(p.life)
  {
    if ps != [] {
      PuffPassLive(ps[1..]);
      assert forall p :: p in ps[1..] ==> p in ps;
    }
  }

  /** The puff pass distributes over concatenation: each puff is handled on
      its own and the survivors stay in their original order. */
  lemma {:induction false} PuffPassAppend(ps: seq<Puff>, qs: seq<Puff>)
    ensures PuffPass(ps + qs) == PuffPass(ps) + PuffPass(qs)
  {
    if ps == [] {
      assert ps + qs == qs;
    } else {
      var h := PuffPassUnfold(ps, qs);
      PuffPassAppend(ps[1..], qs);
      ConcatAssoc(h, PuffPass(ps[1..]), PuffPass(qs));
    }
  }

  lemma ConcatAssoc<T>(a: seq<T>, b: seq<T>, c: seq<T>)
    ensures a + (b + c) == (a + b) + c
  {
  }

  /** The first step of the puff pass over a list with a head, followed by
      more puffs: the head's survivor `h`, if any, comes first both times. */
  lemma PuffPassUnfold(ps: seq<Puff>, qs: seq<Puff>) returns (h: seq<Puff>)
    requires ps != []
    ensures PuffPass(ps) == h + PuffPass(ps[1..])
    ensures PuffPass(ps + qs) == h + PuffPass(ps[1..] + qs)
  {
    var q := StepPuff(ps[0]);
    h := if q.life <= 0.0 then [] else [q];
    assert (ps + qs)[0] == ps[0];
    assert (ps + qs)[1..] == ps[1..] + qs;
  }

  /** A puff survives the pass exactly when it is the stepped form of an
      input puff whose life is still positive. */
  lemma {:induction false} PuffPassMembers(ps: seq<Puff>, q: Puff)
    ensures q in PuffPass(ps) <==>
            exists i :: 0 <= i < |ps| && q == StepPuff(ps[i]) && q.life > 0.0
  {
    if ps != [] {
      PuffPassMembers(ps[1..], q);
      if q in PuffPass(ps[1..]) {
        var i :| 0 <= i < |ps[1..]| && q == StepPuff(ps[1..][i]) && q.life > 0.0;
        assert q == StepPuff(ps[i + 1]);
      }
      if exists i :: 0 <= i < |ps| && q == StepPuff(ps[i]) && q.life > 0.0 {
        var i :| 0 <= i < |ps| && q == StepPuff(ps[i]) && q.life > 0.0;
        if i > 0 {
          assert ps[1..][i - 1] == ps[i];
        }
      }
    }
  }

  /** The puff a surviving trail emits at its new position. */
  function NewPuff(rt: RocketTrail, d: ExhaustDraw): (p: Puff)
    ensures p.x == rt.x && p.y == rt.y && p.life == 1.0
  {
    Puff(rt.x, rt.y, (d.vx - 0.5) * 1.5, d.vy * 1.5 + 0.5, 1.0, d.size * 2.0 + 1.0)
  }

  /** The puffs a trail emits in one frame: one when the sample passes the
      exhaust test, none otherwise. */
  function Exhaust(rt: RocketTrail, d: ExhaustDraw): (e: seq<Puff>)
    ensures |e| <= 1
    ensures |e| == 1 <==> d.chance > ExhaustThreshold
  {
    if d.chance > ExhaustThreshold then [NewPuff(rt, d)] else []
  }

  /** One frame of one rocket trail: it moves by its velocity and loses
      0.005 of life; at or below 0 it is dropped with all its puffs,
      otherwise it may emit one puff and then runs the puff pass, in which
      the new puff takes its first step too. */
  function UpdateTrail(rt: RocketTrail, d: ExhaustDraw): (r: Option<RocketTrail>)
    ensures r.None? <==> rt.life - RocketDecay <= 0.0
    ensures r.Some? ==> r.value.life == rt.life - RocketDecay
    ensures r.Some? ==> r.value.x == rt.x + rt.vx && r.value.y == rt.y + rt.vy
    ensures r.Some? ==> r.value.vx == rt.vx && r.value.vy == rt.vy
    ensures r.Some? ==> |r.value.particles| <= |rt.particles| + 1
    ensures r.Some? ==> r.value.particles == PuffPass(rt.particles + Exhaust(MoveTrail(rt), d))
    ensures r.Some? ==> forall p :: p in r.value.particles ==> p.life > 0.0
    ensures r.Some? && LiveTrail(rt) ==> LiveTrail(r.value)
  {
    var moved := MoveTrail(rt);
    if moved.life <= 0.0 then None
    else
      var ps := moved.particles + Exhaust(moved, d);
      assert forall p :: p in ps && LiveTrail(rt) ==> p.life <= 1.0;
      PuffPassLive(ps);
      Some(moved.(particles := PuffPass(ps)))
  }

  /** A trail's own motion and decay in one frame, before its puffs. */
  function MoveTrail(rt: RocketTrail): (m: RocketTrail)
    ensures m.life == rt.life - RocketDecay && m.particles == rt.particles
  {
    rt.(x := rt.x + rt.vx, y := rt.y + rt.vy, life := rt.life - RocketDecay)
  }

  /** A surviving trail's puffs are its old puffs that survive their step,
      in order, followed by the puff it emitted this frame, if any: a new
      puff always survives its first step. */
  lemma SurvivingTrailPuffs(rt: RocketTrail, d: ExhaustDraw)
    requires UpdateTrail(rt, d).Some?
    ensures var ps := UpdateTrail(rt, d).value.particles;
            d.chance > ExhaustThreshold ==>
              ps == PuffPass(rt.particles) + [StepPuff(NewPuff(MoveTrail(rt), d))]
    ensures d.chance <= ExhaustThreshold ==>
              UpdateTrail(rt, d).value.particles == PuffPass(rt.particles)
  {
    var e := Exhaust(MoveTrail(rt), d);
    PuffPassAppend(rt.particles, e);
    if d.chance > ExhaustThreshold {
      var q := StepPuff(NewPuff(MoveTrail(rt), d));
      assert PuffPass(e[1..]) == [];
      assert PuffPass(e) == [q];
    } else {
      assert e == [];
    }
  }

  /** The rocket-trail part of one `animateCanvas` pass; trail `i` draws `d[i]`. */
  function TrailPass(trails: seq<RocketTrail>, d: seq<ExhaustDraw>): (r: seq<RocketTrail>)
    requires |d| == |trails|
    ensures |r| <= |trails|
  {
    if trails == [] then []
    else
      TrailHead(UpdateTrail(trails[0], d[0])) + TrailPass(trails[1..], d[1..])
  }

  /** No trail and no puff leaves the pass at life 0 or below, and live
      trails stay live. */
  lemma {:induction false} TrailPassLive(trails: seq<RocketTrail>, d: seq<ExhaustDraw>)
    requires |d| == |trails|
    ensures forall rt :: rt in TrailPass(trails, d) ==>
              rt.life > 0.0 && forall p :: p in rt.particles ==> p.life > 0.0
    ensures (forall rt :: rt in trails ==> LiveTrail(rt)) ==>
              forall rt :: rt in TrailPass(trails, d) ==> LiveTrail(rt)
  {
    if trails != [] {
      TrailPassLive(trails[1..], d[1..]);
      assert forall rt :: rt in trails[1..] ==> rt in trails;
    }
  }

  /** The trail pass, like the shooting-star pass, handles each trail on its
      own and keeps the survivors in order. */
  lemma {:induction false} TrailPassAppend(s: seq<RocketTrail>, ds: seq<ExhaustDraw>,
                                            u: seq<RocketTrail>, du: seq<ExhaustDraw>)
    requires |ds| == |s| && |du| == |u|
    ensures TrailPass(s + u, ds + du) == TrailPass(s, ds) + TrailPass(u, du)
  {
    if s == [] {
      assert s + u == u && ds + du == du;
    } else {
      var h := TrailHead(UpdateTrail(s[0], ds[0]));
      assert (s + u)[0] == s[0] && (ds + du)[0] == ds[0];
      assert (s + u)[1..] == s[1..] + u;
      assert (ds + du)[1..] == ds[1..] + du;
      calc {
        TrailPass(s + u, ds + du);
        h + TrailPass(s[1..] + u, ds[1..] + du);
        { TrailPassAppend(s[1..], ds[1..], u, du); }
        h + (TrailPass(s[1..], ds[1..]) + TrailPass(u, du));
        (h + TrailPass(s[1..], ds[1..])) + TrailPass(u, du);
        TrailPass(s, ds) + TrailPass(u, du);
      }
    }
  }

  /** One step of the definition, at any position. */
  lemma TrailPassUnfold(t: seq<RocketTrail>, d: seq<ExhaustDraw>, i: nat)
    requires |d| == |t| && i < |t|
    ensures TrailPass(t[i..], d[i..]) ==
            TrailHead(UpdateTrail(t[i], d[i])) + TrailPass(t[i + 1..], d[i + 1..])
  {
    assert t[i..][1..] == t[i + 1..];
    assert d[i..][1..] == d[i + 1..];
  }

  function TrailHead(u: Option<RocketTrail>): seq<RocketTrail> {
    if u.None? then [] else [u.value]
  }

  /** A trail survives the pass exactly when `UpdateTrail` keeps it, and
      then as the trail `UpdateTrail` returns for it. */
  lemma {:induction false} TrailPassMembers(ts: seq<RocketTrail>, d: seq<ExhaustDraw>, rt: RocketTrail)
    requires |d| == |ts|
    ensures rt in TrailPass(ts, d) <==>
            exists i :: 0 <= i < |ts| && UpdateTrail(ts[i], d[i]) == Some(rt)
  {
    if ts != [] {
      TrailPassMembers(ts[1..], d[1..], rt);
      if rt in TrailPass(ts[1..], d[1..]) {
        var i :| 0 <= i < |ts[1..]| && UpdateTrail(ts[1..][i], d[1..][i]) == Some(rt);
        assert UpdateTrail(ts[i + 1], d[i + 1]) == Some(rt);
      }
      if exists i :: 0 <= i < |ts| && UpdateTrail(ts[i], d[i]) == Some(rt) {
        var i :| 0 <= i < |ts| && UpdateTrail(ts[i], d[i]) == Some(rt);
        if i > 0 {
          assert ts[1..][i - 1] == ts[i] && d[1..][i - 1] == d[i];
        }
      }
    }
  }

  /** A lone trail's pass is exactly what `UpdateTrail` makes of it; it
      gains at most one puff. */
  lemma TrailPassSingle(rt: RocketTrail, d: ExhaustDraw)
    ensures TrailPass([rt], [d]) == TrailHead(UpdateTrail(rt, d))
    ensures |TrailPass([rt], [d])| <= 1
    ensures TrailPass([rt], [d]) == [] <==> rt.life <= RocketDecay
    ensures forall t :: t in TrailPass([rt], [d]) ==> |t.particles| <= |rt.particles| + 1
  {
    assert [rt][1..] == [] && [d][1..] == [];
  }

  /** A trail's frames, one per draw, until it dies. */
  function TrailRun(rt: RocketTrail, ds: seq<ExhaustDraw>): Option<RocketTrail>
    decreases |ds|
  {
    if ds == [] then Some(rt)
    else
      match UpdateTrail(rt, ds[0])
      case None => None
      case Some(t) => TrailRun(t, ds[1..])
  }

  /** A trail with more life than its frames cost survives them all, moved
      by its unchanged velocity once per frame. */
  lemma {:induction false} TrailRunAlive(rt: RocketTrail, ds: seq<ExhaustDraw>)
    requires rt.life > |ds| as real * RocketDecay
    ensures TrailRun(rt, ds).Some?
    ensures TrailRun(rt, ds).value.life == rt.life - |ds| as real * RocketDecay
    ensures TrailRun(rt, ds).value.x == rt.x + |ds| as real * rt.vx
    ensures TrailRun(rt, ds).value.y == rt.y + |ds| as real * rt.vy
    decreases |ds|
  {
    if ds != [] {
      var k := (|ds| - 1) as real;
      var n := |ds| as real;
      assert n == k + 1.0;
      var t := TrailRunStep(rt, ds);
      TrailRunAlive(t, ds[1..]);
      Advance(rt.life, -RocketDecay, k, n);
      Advance(rt.x, rt.vx, k, n);
      Advance(rt.y, rt.vy, k, n);
    }
  }

  /** The first frame of a run, for a trail that survives it. */
  lemma TrailRunStep(rt: RocketTrail, ds: seq<ExhaustDraw>) returns (t: RocketTrail)
    requires ds != [] && rt.life > RocketDecay
    ensures TrailRun(rt, ds) == TrailRun(t, ds[1..])
    ensures t.life == rt.life - RocketDecay && t.x == rt.x + rt.vx && t.y == rt.y + rt.vy
    ensures t.vx == rt.vx && t.vy == rt.vy
  {
    t := UpdateTrail(rt, ds[0]).value;
  }

  /** `k` more steps of `d` after one make `k + 1` steps. */
  lemma Advance(a: real, d: real, k: real, n: real)
    requires n == k + 1.0
    ensures (a + d) + k * d == a + n * d
  {
    StepMore(k, d);
  }

  /** A trail whose life is used up within its frames is gone by the last. */
  lemma {:induction false} TrailRunGone(rt: RocketTrail, ds: seq<ExhaustDraw>)
    requires |ds| >= 1 && rt.life <= |ds| as real * RocketDecay
    ensures TrailRun(rt, ds) == None
    decreases |ds|
  {
    if rt.life > RocketDecay {
      var k := (|ds| - 1) as real;
      assert |ds| as real == k + 1.0;
      var t := TrailRunStep(rt, ds);
      StepMore(k, RocketDecay);
      TrailRunGone(t, ds[1..]);
    }
  }

  /** A freshly launched trail lives through 199 frames and is gone from
      its 200th on. */
  lemma FreshTrailLifetime(rt: RocketTrail, ds: seq<ExhaustDraw>)
    requires rt.life == 1.0
    ensures |ds| <= 199 ==> TrailRun(rt, ds).Some? &&
                            TrailRun(rt, ds).value.life == 1.0 - |ds| as real * RocketDecay
    ensures |ds| >= 200 ==> TrailRun(rt, ds) == None
  {
    if |ds| <= 199 {
      TrailRunAlive(rt, ds);
    } else {
      TrailRunGone(rt, ds);
    }
  }

  /** The inner puff loop of `animateCanvas`: walks the puffs from the last to
      the first, steps each and splices out those at life 0 or less. */
  method AdvancePuffs(ps: seq<Puff>) returns (r: seq<Puff>)
    ensures r == PuffPass(ps)
  {
    r := ps;
    var j := |r|;
    while j > 0
      invariant 0 <= j <= |ps|
      invariant |r| >= j && r[..j] == ps[..j]
      invariant r[j..] == PuffPass(ps[j..])
    {
      j := j - 1;
      var p := StepPuff(r[j]);
      if p.life <= 0.0 {
        PuffLoopDrop(r, ps, j);
        r := r[..j] + r[j + 1..];
      } else {
        PuffLoopKeep(r, ps, j);
        r := r[j := p];
      }
    }
    assert r == r[0..] && ps == ps[0..];
  }

  /** One turn of the reverse puff loop keeps its invariant, when the puff at
      `j` is spliced out ... */
  lemma PuffLoopDrop(cur: seq<Puff>, ps: seq<Puff>, j: nat)
    requires j < |ps| && j < |cur|
    requires cur[..j + 1] == ps[..j + 1]
    requires cur[j + 1..] == PuffPass(ps[j + 1..])
    requires StepPuff(cur[j]).life <= 0.0
    ensures |cur[..j] + cur[j + 1..]| >= j
    ensures (cur[..j] + cur[j + 1..])[..j] == ps[..j]
    ensures (cur[..j] + cur[j + 1..])[j..] == PuffPass(ps[j..])
  {
    assert cur[j] == ps[j];
    assert ps[j..][1..] == ps[j + 1..];
    var c := cur[..j] + cur[j + 1..];
    assert c[..j] == cur[..j];
    assert c[j..] == cur[j + 1..];
  }

  /** ... and when it is replaced by its stepped self. */
  lemma PuffLoopKeep(cur: seq<Puff>, ps: seq<Puff>, j: nat)
    requires j < |ps| && j < |cur|
    requires cur[..j + 1] == ps[..j + 1]
    requires cur[j + 1..] == PuffPass(ps[j + 1..])
    requires StepPuff(cur[j]).life > 0.0
    ensures cur[j := StepPuff(cur[j])][..j] == ps[..j]
    ensures cur[j := StepPuff(cur[j])][j..] == PuffPass(ps[j..])
  {
    assert cur[j] == ps[j];
    assert ps[j..][1..] == ps[j + 1..];
    var c := cur[j := StepPuff(cur[j])];
    assert c[..j] == cur[..j];
    assert c[j..] == [StepPuff(cur[j])] + cur[j + 1..];
  }

  /** The body of the trail loop for one trail: move and decay it, report it
      as gone at life 0 or below, otherwise let it emit and run the inner
      puff loop. */
  method AdvanceTrail(rt: RocketTrail, d: ExhaustDraw) returns (r: Option<RocketTrail>)
    ensures r == UpdateTrail(rt, d)
  {
    var moved := MoveTrail(rt);
    if moved.life <= 0.0 {
      return None;
    }
    var ps := moved.particles + Exhaust(moved, d);
    ps := AdvancePuffs(ps);
    return Some(moved.(particles := ps));
  }

  /** One turn of the reverse trail loop keeps its invariant: entries below
      `i` untouched, entries from `i` on equal to the pass over the
      original suffix. First when the trail at `i` is spliced out ... */
  lemma TrailLoopDrop(cur: seq<RocketTrail>, s0: seq<RocketTrail>, d: seq<ExhaustDraw>, i: nat)
    requires |d| == |s0| && i < |s0| && i < |cur|
    requires cur[..i + 1] == s0[..i + 1]
    requires cur[i + 1..] == TrailPass(s0[i + 1..], d[i + 1..])
    requires UpdateTrail(cur[i], d[i]).None?
    ensures |cur[..i] + cur[i + 1..]| >= i
    ensures (cur[..i] + cur[i + 1..])[..i] == s0[..i]
    ensures (cur[..i] + cur[i + 1..])[i..] == TrailPass(s0[i..], d[i..])
  {
    assert cur[i] == s0[i];
    TrailPassUnfold(s0, d, i);
    var c := cur[..i] + cur[i + 1..];
    assert c[..i] == cur[..i];
    assert c[i..] == cur[i + 1..];
  }

  /** ... then when it is replaced by its updated self. */
  lemma TrailLoopKeep(cur: seq<RocketTrail>, s0: seq<RocketTrail>, d: seq<ExhaustDraw>,
                      i: nat, next: RocketTrail)
    requires |d| == |s0| && i < |s0| && i < |cur|
    requires cur[..i + 1] == s0[..i + 1]
    requires cur[i + 1..] == TrailPass(s0[i + 1..], d[i + 1..])
    requires UpdateTrail(cur[i], d[i]) == Some(next)
    ensures cur[i := next][..i] == s0[..i]
    ensures cur[i := next][i..] == TrailPass(s0[i..], d[i..])
  {
    assert cur[i] == s0[i];
    TrailPassUnfold(s0, d, i);
    var c := cur[i := next];
    assert c[..i] == cur[..i];
    assert c[i..] == [next] + cur[i + 1..];
  }

  /** The canvas and its three entity lists. `hasCanvas` is whether the page
      has the `#particleCanvas` element, `hasContext` whether it gave a 2D
      context. */
  class ParticleCanvas {
    const hasCanvas: bool
    const hasContext: bool
    var width: nat
    var height: nat
    var stars: seq<Star>
    var shootingStars: seq<ShootingStar>
    var rocketTrails: seq<RocketTrail>

    /** No entity past its life is kept from one frame to the next. */
    ghost predicate Valid()
      reads this
    {
      && (hasContext ==> hasCanvas)
      && (forall ss :: ss in shootingStars ==> Alive(ss.life))
      && (forall rt :: rt in rocketTrails ==> LiveTrail(rt))
    }

    /** The page's start-up state: empty lists on a canvas of the HTML default
        size, before the first `initCanvas`. */
    constructor (hasCanvas: bool, hasContext: bool)
      requires hasContext ==> hasCanvas
      ensures Valid()
      ensures this.hasCanvas == hasCanvas && this.hasContext == hasContext
      ensures width == 300 && height == 150
      ensures stars == [] && shootingStars == [] && rocketTrails == []
    {
      this.hasCanvas := hasCanvas;
      this.hasContext := hasContext;
      width, height := 300, 150;
      stars, shootingStars, rocketTrails := [], [], [];
    }

    /** `initCanvas`: size the canvas to the viewport and replace the stars
        with 80 of them on a mobile-width viewport and 200 otherwise. */
    method InitCanvas(innerWidth: nat, innerHeight: nat, draws: seq<StarDraw>)
      requires Valid()
      requires hasCanvas ==> |draws| >= StarCount(innerWidth)
      requires forall d :: d in draws ==> d.Valid()
      modifies this
      ensures Valid()
      ensures !hasCanvas ==> width == old(width) && height == old(height) && stars == old(stars)
      ensures hasCanvas ==> width == innerWidth && height == innerHeight
      ensures hasCanvas ==> |stars| == StarCount(innerWidth)
      ensures hasCanvas ==> forall i :: 0 <= i < |stars| ==> stars[i] == MakeStar(draws[i], width, height)
      ensures shootingStars == old(shootingStars) && rocketTrails == old(rocketTrails)
    {
      if !hasCanvas {
        return;
      }
      width := innerWidth;
      height := innerHeight;
      stars := [];
      var count := StarCount(innerWidth);
      var i := 0;
      while i < count
        invariant 0 <= i <= count
        invariant width == innerWidth && height == innerHeight
        invariant |stars| == i
        invariant forall j :: 0 <= j < i ==> stars[j] == MakeStar(draws[j], width, height)
        invariant Valid()
        invariant shootingStars == old(shootingStars) && rocketTrails == old(rocketTrails)
      {
        stars := stars + [MakeStar(draws[i], width, height)];
        i := i + 1;
      }
    }

    /** `spawnShootingStar`: a no-op under reduced motion, otherwise one new
        star with life 1 at the end of the list. The source reads the canvas
        size without checking that the canvas exists. */
    method SpawnShootingStar(reducedMotion: bool, d: ShootingDraw)
      requires Valid()
      requires hasCanvas || reducedMotion
      modifies this
      ensures Valid()
      ensures reducedMotion ==> shootingStars == old(shootingStars)
      ensures !reducedMotion ==> shootingStars == old(shootingStars) + [NewShootingStar(d, width, height)]
      ensures stars == old(stars) && rocketTrails == old(rocketTrails)
      ensures width == old(width) && height == old(height)
    {
      if reducedMotion {
        return;
      }
      shootingStars := shootingStars + [NewShootingStar(d, width, height)];
    }

    /** `spawnRocket`: a no-op under reduced motion or on a viewport at most
        768 wide, otherwise one new trail with life 1 and no puffs. */
    method SpawnRocket(reducedMotion: bool, innerWidth: nat, d: RocketDraw)
      requires Valid()
      requires hasCanvas || reducedMotion || IsMobile(innerWidth)
      requires Unit(d.speed) && Unit(d.climb)
      modifies this
      ensures Valid()
      ensures reducedMotion || IsMobile(innerWidth) ==> rocketTrails == old(rocketTrails)
      ensures !reducedMotion && !IsMobile(innerWidth) ==>
              rocketTrails == old(rocketTrails) + [NewRocketTrail(d, width, height)]
      ensures stars == old(stars) && shootingStars == old(shootingStars)
      ensures width == old(width) && height == old(height)
    {
      if reducedMotion || IsMobile(innerWidth) {
        return;
      }
      rocketTrails := rocketTrails + [NewRocketTrail(d, width, height)];
    }

    /** `animateCanvas`: with no 2D context nothing happens; otherwise every
        star twinkles, the shooting stars and the rocket trails take their
        pass, and `rows` holds the row each star is drawn on. */
    method AnimateCanvas(scrollY: real, exhaust: seq<ExhaustDraw>) returns (rows: seq<Option<real>>)
      requires Valid()
      requires |exhaust| == |rocketTrails|
      modifies this
      ensures Valid()
      ensures width == old(width) && height == old(height)
      ensures !hasContext ==> stars == old(stars) && shootingStars == old(shootingStars)
                              && rocketTrails == old(rocketTrails) && rows == []
      ensures hasContext ==> |stars| == |old(stars)| && |rows| == |stars|
      ensures hasContext ==> forall i :: 0 <= i < |stars| ==>
                stars[i] == Twinkle(old(stars)[i]) && rows[i] == WrappedY(stars[i], scrollY, height)
      ensures hasContext ==> shootingStars == ShootingPass(old(shootingStars))
      ensures hasContext ==> rocketTrails == TrailPass(old(rocketTrails), exhaust)
    {
      rows := [];
      if !hasContext {
        return;
      }
      rows := TwinkleStars(scrollY);
      AdvanceShootingStars();
      AdvanceRocketTrails(exhaust);
    }

    /** The `stars.forEach` of `animateCanvas`. */
    method TwinkleStars(scrollY: real) returns (rows: seq<Option<real>>)
      requires Valid()
      modifies this
      ensures Valid()
      ensures |stars| == |old(stars)| && |rows| == |stars|
      ensures forall i :: 0 <= i < |stars| ==>
                stars[i] == Twinkle(old(stars)[i]) && rows[i] == WrappedY(stars[i], scrollY, height)
      ensures shootingStars == old(shootingStars) && rocketTrails == old(rocketTrails)
      ensures width == old(width) && height == old(height)
    {
      rows := [];
      var i := 0;
      while i < |stars|
        invariant 0 <= i <= |stars| == |old(stars)|
        invariant |rows| == i
        invariant forall j :: 0 <= j < i ==>
                    stars[j] == Twinkle(old(stars)[j]) && rows[j] == WrappedY(stars[j], scrollY, height)
        invariant forall j :: i <= j < |stars| ==> stars[j] == old(stars)[j]
        invariant Valid()
        invariant shootingStars == old(shootingStars) && rocketTrails == old(rocketTrails)
        invariant width == old(width) && height == old(height)
      {
        stars := stars[i := Twinkle(stars[i])];
        rows := rows + [WrappedY(stars[i], scrollY, height)];
        i := i + 1;
      }
    }

    /** The reverse loop over `shootingStars` that steps each star and splices
        out the dead ones. */
    method AdvanceShootingStars()
      requires Valid()
      modifies this
      ensures Valid()
      ensures shootingStars == ShootingPass(old(shootingStars))
      ensures stars == old(stars) && rocketTrails == old(rocketTrails)
      ensures width == old(width) && height == old(height)
    {
      ghost var s0 := shootingStars;
      var i := |shootingStars|;
      while i > 0
        invariant 0 <= i <= |s0|
        invariant |shootingStars| >= i && shootingStars[..i] == s0[..i]
        invariant shootingStars[i..] == ShootingPass(s0[i..])
        invariant stars == old(stars) && rocketTrails == old(rocketTrails)
        invariant width == old(width) && height == old(height)
      {
        i := i - 1;
        var ss := StepShootingStar(shootingStars[i]);
        if ss.life <= 0.0 {
          ShootingLoopDrop(shootingStars, s0, i);
          shootingStars := shootingStars[..i] + shootingStars[i + 1..];
        } else {
          ShootingLoopKeep(shootingStars, s0, i);
          shootingStars := shootingStars[i := ss];
        }
      }
      assert shootingStars == shootingStars[0..];
      assert s0 == s0[0..];
      ShootingPassLive(s0);
    }

    /** The reverse loop over `rocketTrails`: each trail moves and decays, is
        spliced out at life 0 or less, and otherwise may emit a puff and runs
        the inner puff loop. */
    method AdvanceRocketTrails(exhaust: seq<ExhaustDraw>)
      requires Valid()
      requires |exhaust| == |rocketTrails|
      modifies this
      ensures Valid()
      ensures rocketTrails == TrailPass(old(rocketTrails), exhaust)
      ensures stars == old(stars) && shootingStars == old(shootingStars)
      ensures width == old(width) && height == old(height)
    {
      ghost var s0 := rocketTrails;
      var i := |rocketTrails|;
      while i > 0
        invariant 0 <= i <= |s0| && |exhaust| == |s0|
        invariant |rocketTrails| >= i && rocketTrails[..i] == s0[..i]
        invariant rocketTrails[i..] == TrailPass(s0[i..], exhaust[i..])
        invariant stars == old(stars) && shootingStars == old(shootingStars)
        invariant width == old(width) && height == old(height)
      {
        i := i - 1;
        var next := AdvanceTrail(rocketTrails[i], exhaust[i]);
        if next.None? {
          TrailLoopDrop(rocketTrails, s0, exhaust, i);
          rocketTrails := rocketTrails[..i] + rocketTrails[i + 1..];
        } else {
          TrailLoopKeep(rocketTrails, s0, exhaust, i, next.value);
          rocketTrails := rocketTrails[i := next.value];
        }
      }
      assert rocketTrails == rocketTrails[0..];
      assert s0 == s0[0..] && exhaust == exhaust[0..];
      TrailPassLive(s0, exhaust);
    }
  }
}
