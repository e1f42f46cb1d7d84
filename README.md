# Cosmos animation suite — verified model of its animation core

This project models, in Dafny, the parts of the site's `script.js` that
compute something, not the parts that draw it:

- **Particle canvas** (`starfield.dfy`, module `Starfield`). `initCanvas`
  rebuilds the starfield: 80 stars on a mobile viewport and 200 otherwise.
  `spawnShootingStar` and `spawnRocket` append new entities. The per-frame
  pass of `animateCanvas` twinkles every star and wraps its row into the
  canvas height. It moves every shooting star, rocket trail and exhaust
  puff, takes a fixed step off its `life`, and splices out the dead ones
  with reverse loops. The canvas is the class `ParticleCanvas`. Its three
  lists are `seq` fields that the methods reassign. Each reverse splice
  loop is proved equal to a recursive specification function:
  `ShootingPass`, `PuffPass` or `TrailPass`.
- **Shared helpers** (`utilities.dfy`, module `Utilities`): `lerp`, `clamp`,
  `pcAdjust` without its rounding, `Math.ceil`, and JavaScript's truncating
  `%` together with the `((x % w) + w) % w` wrap. It also holds the
  smoothing factor `1 - exp(-dt / tau)`, which is a parameter here, and
  the per-frame follow animations that `lerp` drives.
- **Logo marquee** (`logo_loop.dfy`, class `LogoLoop.Marquee`). `measure`
  sizes the track in lists of logos. `animate` smooths the velocity toward
  80 px/s, or toward 0 while the pointer hovers, and wraps the offset
  modulo one list's width.
- **Profile card tilt engine** (`profile_card.dfy`, class
  `ProfileCard.TiltCard`). It models `setVarsFromXY`, `step`, `start`,
  `setTarget` and `toCenter`, the three pointer handlers with the settle
  check, and the initial glide. The glide uses a time constant of 0.6 s
  until 1200 ms after the script first runs and 0.14 s afterwards.
- **Rotating headline** (`rotating_text.dfy`, class `RotatingText.Headline`).
  `buildText` splits a phrase into word spans with a space span between
  them. `setStaggerDelays` staggers the characters. The interval callback
  moves to `(i + 1) % 5` and swaps the phrase in after the exit.
- **FAQ accordion** (`faq.dfy`, class `Faq.Accordion`): a click closes
  every item and opens the clicked one unless it was already open.

Every `Math.random()` sample is an injected "draw" value. The star draws,
and the rocket's speed and climb samples, are required to lie in [0, 1),
because the contracts that state their ranges depend on it. The other
samples are left unconstrained, so those contracts hold for any value. The
smoothing factor is injected as a function `blend(dt, tau)`. The only
things the model assumes about it are that it lies in [0, 1] for
non-negative `dt` and that it is 0 when `dt` is 0. Timestamps and viewport
sizes are parameters. Doubles are modelled as exact `real`s.

## Model

| member | source | states |
|---|---|---|
| Utilities.Lerp | script.js:13 | With a fraction in [0, 1] the result lies between the start and the target. The remaining gap is the old gap times `1 - n`. Fraction 0 keeps the start and fraction 1 reaches the target. |
| Utilities.Clamp | script.js:14 | The result never exceeds the upper bound. It is at least the lower bound when the bounds are ordered. A value already in range is returned unchanged. With ordered bounds, a value below the range gives the lower bound. A value above the range gives the upper bound. With crossed bounds the result is the upper bound, as `Math.min` applied last makes it. |
| Utilities.Remap | script.js:633 | `pcAdjust` before rounding maps the source range's ends to the target range's ends and maps values inside the range into the target range. |
| Utilities.RemapFraction | script.js:633 | Multiplying before dividing, as `pcAdjust` does, equals scaling the target span by the fraction of the source span covered. That fraction lies in [0, 1] inside the range. |
| Utilities.Ceil | script.js:894 | `Math.ceil`: the least integer at or above the value. |
| Utilities.JsRem | script.js:927 | JavaScript's `%` takes the sign of the dividend. The result lies in [0, m) for a non-negative dividend and in (-m, 0] for a negative one. It has the same Euclidean remainder as the dividend, so together these fix its value. |
| Utilities.ModShift | script.js:927 | Adding one period to a value leaves its Euclidean remainder unchanged. |
| Utilities.TruncRemainder | script.js:927 | The truncating remainder `x - m * trunc(x / m)` obeys those same bounds. |
| Utilities.ModUnique | script.js:927 | The Euclidean remainder is the only value in [0, m) that differs from x by a whole number of periods. |
| Utilities.WrapMod | script.js:927 | `((x % m) + m) % m` always lies in [0, m) and equals the Euclidean remainder of x. |
| Utilities.FollowFramesGap | script.js:13 | After m frames of `cur = lerp(cur, target, n)` the gap to the target is `(1 - n)^m` times the first gap. |
| Utilities.FollowFramesNoOvershoot | script.js:13 | With a factor in [0, 1], no number of frames carries the value past its target or further from it. |
| Utilities.FollowersNoOvershoot | script.js:427-499 | The tilt (0.08), magnetic-button (0.1) and cursor-glow (0.06) followers never overshoot, however many frames run. |
| Starfield.StarCount | script.js:105 | 80 stars exactly when `IsMobile` holds, that is when the viewport is at most 768 px wide (`isMobile`, script.js:15), and 200 exactly when it is wider. |
| Starfield.MakeStar | script.js:107-115 | Each star's fields fall in the ranges its random formulas give: position inside the canvas, size [0.3, 2.1), alpha [0.1, 0.7), twinkle speed [0.005, 0.02), phase [0, 2π), depth [1, 4). |
| Starfield.Twinkle | script.js:151 | Only the twinkle phase changes, and it advances by the star's twinkle speed. |
| Starfield.WrappedY | script.js:153-154 | With a positive canvas height the drawn row lies in [0, h). It equals the Euclidean remainder of `y - scrollY * 0.05 * depth`. With a zero height there is no row. |
| Starfield.NewShootingStar | script.js:121-128 | A spawned shooting star starts with life 1, which counts as alive, and with the drawn heading. |
| Starfield.NewRocketTrail | script.js:134-141 | A spawned trail starts with life 1 and no puffs. On the left side it starts at x = -10 heading right at [2, 5) px per frame. On the right side it starts at `width + 10` heading left. It climbs at a rate in [0.5, 2). |
| Starfield.StepShootingStar | script.js:166-168 | One frame moves the star by `speed` along its heading and takes 0.015 off its life. Nothing else changes. |
| Starfield.ShootingPass | script.js:164-169 | The shooting-star pass never lengthens the list. Its meaning is stated by the lemmas below. |
| Starfield.ShootingPassLive | script.js:164-169 | Every shooting star the pass keeps has positive life. When the list started with lives at most 1, every kept star is alive. |
| Starfield.ShootingPassAppend | script.js:164-169 | The pass handles each star on its own: it distributes over concatenation, so the survivors keep their order. |
| Starfield.ShootingPassMembers | script.js:164-169 | A star is in the result exactly when it is the stepped form of some input star whose life stayed positive. |
| Starfield.FreshShootingStarFlight | script.js:164-169 | A freshly spawned star survives its first 66 frames, each of which moves it one step along its heading. |
| Starfield.FlightStep | script.js:166-168 | For any star, one more step extends the closed form for m - 1 steps to m steps. |
| Starfield.FreshShootingStarGone | script.js:164-169 | From the 67th frame on, a freshly spawned star is gone from the list. |
| Starfield.TenPassesOfAShootingStar | script.js:164-169 | After ten frames a fresh star is still the only entry, and its life is 0.85. |
| Starfield.StepPuff | script.js:201 | One frame moves an exhaust puff by its velocity and takes 0.025 off its life. Nothing else changes. |
| Starfield.PuffPass | script.js:199-202 | The inner puff pass never lengthens the list. Its meaning is stated by the lemmas below. |
| Starfield.PuffPassLive | script.js:199-202 | Every puff the inner pass keeps has positive life. When the list started with lives at most 1, every kept puff is alive. |
| Starfield.PuffPassAppend | script.js:199-202 | The puff pass distributes over concatenation, so the survivors keep their order. |
| Starfield.PuffPassMembers | script.js:199-202 | A puff is in the result exactly when it is the stepped form of some input puff whose life stayed positive. |
| Starfield.PuffDriftStep | script.js:201 | For any puff, one more step extends the closed form for m - 1 steps to m steps. |
| Starfield.FreshPuffAlive | script.js:199-202 | A freshly emitted puff (life 1) is still the only puff after up to 39 passes, moved m steps by its velocity with life 1 - 0.025m. |
| Starfield.FreshPuffGone | script.js:199-202 | From the 40th pass on, which is ceil(1/0.025), a freshly emitted puff is gone and stays gone. |
| Starfield.NewPuff | script.js:193-197 | A new puff starts at the trail's position with life 1. |
| Starfield.Exhaust | script.js:192-198 | A trail emits one puff exactly when its sample exceeds 0.3, and never more than one. |
| Starfield.UpdateTrail | script.js:188-207 | A trail is dropped exactly when its life falls to 0. A surviving trail has moved by its velocity and lost 0.005 of life. Its puffs are exactly the puff pass over its old puffs followed by this frame's exhaust. It gains at most one puff, its puffs all have positive life, and a live trail stays live. |
| Starfield.MoveTrail | script.js:189-190 | A trail's own step takes 0.005 off its life and leaves its puffs alone. |
| Starfield.SurvivingTrailPuffs | script.js:192-202 | A surviving trail keeps its old puffs that survive their step, in order. When it emitted a puff this frame, that puff follows them after its first step, because a new puff always survives that step. |
| Starfield.TrailPass | script.js:187-207 | The trail pass never lengthens the list. `TrailPassMembers`, `TrailPassSingle` and `TrailPassAppend` tie it to `UpdateTrail`. |
| Starfield.TrailPassMembers | script.js:187-207 | A trail is in the result exactly when `UpdateTrail` keeps some input trail as that trail. |
| Starfield.TrailPassLive | script.js:187-207 | Every surviving trail and each of its puffs has positive life. Live trails stay live. |
| Starfield.TrailPassAppend | script.js:187-207 | The trail pass distributes over concatenation, so the survivors keep their order. |
| Starfield.TrailPassSingle | script.js:187-207 | A lone trail's pass is exactly what `UpdateTrail` makes of it. It survives exactly when its life exceeds 0.005, and it gains at most one puff. |
| Starfield.TrailRunAlive | script.js:189-191 | A trail whose life exceeds 0.005 per frame to come survives all those frames (`TrailRun` applies `UpdateTrail` once per draw). It ends with that much less life, moved one velocity step per frame. |
| Starfield.TrailRunStep | script.js:189-191 | A trail that survives the first frame continues the run from its moved self, with the same velocity. |
| Starfield.TrailRunGone | script.js:189-191 | A trail whose life is at most 0.005 per frame to come, with at least one frame, is gone by the end, whatever the draws. |
| Starfield.FreshTrailLifetime | script.js:189-191 | A freshly launched trail (life 1) is alive after up to 199 frames with life 1 - 0.005m, and gone from the 200th frame on, which is ceil(1/0.005). `TrailPassSingle` carries this to the trail pass. |
| Starfield.AdvancePuffs | script.js:199-202 | The reverse splice loop over a trail's puffs leaves exactly `PuffPass` of them. |
| Starfield.AdvanceTrail | script.js:188-207 | One trail's frame, as a method, yields exactly `UpdateTrail`. |
| Starfield.ParticleCanvas.constructor | script.js:96-98 | The canvas starts at its default 300×150 with no stars, shooting stars or trails. |
| Starfield.ParticleCanvas.InitCanvas | script.js:100-117 | Without a canvas nothing changes. With one, the canvas takes the viewport size and holds exactly `StarCount` new stars, each made from its draw. |
| Starfield.ParticleCanvas.SpawnShootingStar | script.js:119-129 | Under reduced motion nothing changes. Otherwise exactly one new star is appended and the other lists are untouched. |
| Starfield.ParticleCanvas.SpawnRocket | script.js:131-142 | Under reduced motion or on mobile (`IsMobile`, the source's `isMobile`) nothing changes. Otherwise exactly one new trail is appended. |
| Starfield.ParticleCanvas.AnimateCanvas | script.js:144-218 | Without a context nothing changes. Otherwise every star twinkles and yields its wrapped row, the shooting stars become `ShootingPass` of the old list, and the trails become `TrailPass`. |
| Starfield.ParticleCanvas.TwinkleStars | script.js:150-161 | Each star twinkles in place, and each drawn row is that star's `WrappedY`. |
| Starfield.ParticleCanvas.AdvanceShootingStars | script.js:164-184 | The reverse splice loop leaves exactly `ShootingPass` of the old list and keeps every star alive. |
| Starfield.ParticleCanvas.AdvanceRocketTrails | script.js:187-215 | The reverse splice loop leaves exactly `TrailPass` of the old trails and keeps every trail live. |
| LogoLoop.Tiled | script.js:908-913 | The track `measure` builds: the original list followed only by clones. |
| LogoLoop.CeilDiv | script.js:898 | `Math.ceil(c / s)` on whole pixels: the least count of lists whose total width reaches c. |
| LogoLoop.ContainerWidth | script.js:897 | The container's width, or the list width when the container reports 0. |
| LogoLoop.CopiesNeeded | script.js:898 | At least two lists. Together they cover the container plus two lists of headroom, and no smaller count above two does. |
| LogoLoop.FiveCopiesForNineHundred | script.js:898 | A 400 px list in a 900 px container needs five lists, that is four clones. |
| LogoLoop.FrameDt | script.js:917-918 | `dt` is never negative. It is 0 on the first frame and when time goes backwards, and otherwise it is the elapsed milliseconds over 1000. |
| LogoLoop.SmoothVelocity | script.js:921-923 | The target is `TargetSpeed`: the hover speed while hovered and the normal speed otherwise (script.js:921). The new velocity lies between the old one and the target, so it stays within [0, 80]. It never rises while hovered, never falls otherwise, and is unchanged when `k` is 0. |
| LogoLoop.WrapOffset | script.js:925-927 | With a width, the offset lands in [0, w) and equals the Euclidean remainder of the advanced offset. Without a width it is untouched. |
| LogoLoop.WrapIsSeamless | script.js:926-927 | An advanced offset already in [0, w) is kept. One that crosses either end within one width moves by exactly one width. |
| LogoLoop.MeasureAsWritten | script.js:901-905 | As written, a track of more than one list comes out one list shorter, and no clone is added. |
| LogoLoop.RepeatedMeasureLosesCopies | script.js:892-914 | Measuring again a correctly built five-list track leaves four lists, not five. |
| LogoLoop.Marquee.constructor | script.js:886-890 | The marquee starts at rest with no width and no previous frame. Its track holds only the original list. |
| LogoLoop.Marquee.Measure | script.js:892-914 | With a non-positive width the track is untouched. Otherwise the track becomes exactly the original plus `CopiesNeeded - 1` clones, and the motion state is untouched. |
| LogoLoop.Marquee.Animate | script.js:916-932 | The velocity is smoothed with `k = blend(dt, 0.25)`. The offset advances by `velocity * dt` and wraps. The first frame leaves the velocity as it was and only wraps the offset. The velocity stays within [0, 80]. |
| LogoLoop.Marquee.SetHovered | script.js:935-936 | Only the hover flag changes. |
| ProfileCard.OrOne | script.js:644-645 | The width and height used are positive and equal the real ones when those are positive. |
| ProfileCard.SetVarsFromXY | script.js:643-659 | `--pointer-x` and `--pointer-y` are the scaled position clamped to [0, 100], and equal it when it is in range. A position before the start gives 0 and one past the end gives 100. The from-left and from-top values are those over 100. The rotations are `-(px - 50) / 5` and `(py - 50) / 4`. The background position maps [0, 100] onto [35, 65]. |
| ProfileCard.CentreIsFlat | script.js:643-659 | At the card's centre the pointer is at 50% on both axes, there is no rotation, and the background sits at 50%. |
| ProfileCard.Tau | script.js:667 | The time constant is 0.6 exactly before `initialUntil` and 0.14 exactly from then on. |
| ProfileCard.StepDt | script.js:663-664 | The first frame after a start has `dt` 0. Otherwise `dt` is the elapsed milliseconds over 1000, and it is non-negative when time runs forward. |
| ProfileCard.StillFar | script.js:673 | The per-axis test of `step`: a position still far lies outside the circle of radius 0.05 around the target. |
| ProfileCard.Settled | script.js:714 | The settle test, `hypot < 0.6` squared: a settled position is within 0.6 of the target on each axis. |
| ProfileCard.StopImpliesSettled | script.js:673-678 | Once `step` stops because both axes are within 0.05, the point is within the settle radius 0.6 of the target. |
| ProfileCard.SettledDoesNotStop | script.js:673-714 | The converse fails: a point 0.3 from the target counts as settled, yet `step` still runs. |
| ProfileCard.WidthOr300 | script.js:727 | The card's width, or 300 when it reports 0. |
| ProfileCard.TiltCard.constructor | script.js:726-733 | The card starts 70 px left of the right edge and 60 px down, aimed at its centre, running, with the slow time constant for 1200 ms. |
| ProfileCard.TiltCard.Start | script.js:682-687 | Afterwards the engine runs. An engine that was stopped restarts with no previous frame. A running engine is untouched. |
| ProfileCard.TiltCard.SetTarget | script.js:689 | The target becomes the given point, and the engine runs. |
| ProfileCard.TiltCard.ToCenter | script.js:691-693 | The target becomes the card's centre, and the engine runs. |
| ProfileCard.TiltCard.Step | script.js:661-680 | A stopped engine is untouched. A running one moves each axis by `lerp` with the blended factor and never overshoots while time runs forward. The first frame after a start does not move it. It updates the CSS variables and keeps running exactly while still far from the target or while the document has focus. |
| ProfileCard.TiltCard.PointerEnter | script.js:696-704 | The card becomes active and aims at the pointer. A running engine keeps its last frame time, and the glide's end time is unchanged. |
| ProfileCard.TiltCard.PointerMove | script.js:706-709 | The card aims at the pointer. A running engine keeps its last frame time, and the glide's end time is unchanged. |
| ProfileCard.TiltCard.PointerLeave | script.js:711-724 | The card aims back at its centre and starts a settle check. A running engine keeps its last frame time, and the glide's end time is unchanged. |
| ProfileCard.TiltCard.CheckSettle | script.js:713-721 | A pending check that finds the point settled deactivates the card and ends. Otherwise nothing changes. The position, target, engine state and glide end time are never touched. |
| RotatingText.Split | script.js:772 | `split(' ')` always returns at least one word. |
| RotatingText.SplitWordsNoSpace | script.js:772 | No word from `split(' ')` contains a space. |
| RotatingText.SplitJoin | script.js:772 | Joining the split words with single spaces gives the text back. |
| RotatingText.JoinSplit | script.js:772 | Splitting a join of space-free words gives the words back. |
| RotatingText.Interleave | script.js:776-796 | A fragment for n words has 2n - 1 spans. Words sit at even positions in order, and spaces at odd positions. |
| RotatingText.RenderInterleave | script.js:776-796 | The fragment shows the words joined with single spaces. |
| RotatingText.ConcatIsJoinWithoutSpaces | script.js:780-787 | The collected characters are the joined text with its spaces removed. |
| RotatingText.BuildText | script.js:771-799 | The fragment shows exactly the text, alternating word and space spans with no space inside a word. The character list is the text without its spaces. |
| RotatingText.BuildTextRoundTrip | script.js:771-799 | Rebuilding from the text the fragment shows gives the same fragment. |
| RotatingText.StaggerDelays | script.js:801-812 | There is one delay per character, each in [0, (n-1)·25]. The last character has 0 when staggered from the last, and the first has 0 otherwise. |
| RotatingText.StaggerStep | script.js:801-812 | Adjacent characters differ by exactly 25 ms, descending when staggered from the last and ascending otherwise. |
| RotatingText.StaggerMirror | script.js:801-812 | Staggering from the last mirrors staggering from the first. |
| RotatingText.MaxDelay | script.js:845 | The swap waits longer than every character's delay plus 500 ms. |
| RotatingText.SwapBeforeNextChange | script.js:745-852 | For each of the five phrases the swap happens before the next 2000 ms change. |
| RotatingText.NextIndex | script.js:864 | The next index stays below the phrase count. It advances by one and returns to 0 after the last phrase. |
| RotatingText.RotationsCycle | script.js:863-866 | After m changes the index is `m % n`: the phrases repeat with period n. |
| RotatingText.Headline.constructor | script.js:834-861 | The first phrase goes straight into the track, and the screen-reader text shows it. |
| RotatingText.Headline.Advance | script.js:836-866 | The index moves to the next phrase and the screen-reader text follows at once. Characters on show start exiting, staggered from the last, while the new fragment waits. With no characters on show the new fragment goes in directly. |
| RotatingText.Headline.Swap | script.js:846-852 | The waiting fragment replaces the track, so the track shows the screen-reader text. |
| Faq.AfterClick | script.js:373-385 | The item count is kept, and every item's open class matches its `aria-expanded`. The clicked item toggles and every other item is closed. |
| Faq.ClickKeepsOneOpen | script.js:373-385 | Whatever the state before, at most one item is open after a click. |
| Faq.ClickTwice | script.js:373-385 | Clicking a closed item twice closes everything. Clicking an open item twice reopens it as the only open one. |
| Faq.Accordion.Click | script.js:374-384 | The loop over the items leaves exactly `AfterClick` of the old items. |

## Left out

- Drawing and DOM output are out of scope: canvas paths, gradients, CSS custom-property strings, class-list edits, spans and fragments. The model keeps the numbers and token sequences that would be written.
- `Math.sin`, `Math.cos`, `Math.exp` and `Math.hypot` are not computed. A shooting star's heading enters as its cosine and sine. The smoothing factor `1 - exp(-dt / tau)` enters as `blend`, and only its range and its value at `dt = 0` are assumed. The twinkle alpha and the mouse parallax of a star are drawing-only.
- `Math.random()` is an injected sample. Only the star draws and the rocket's speed and climb samples are required to lie in [0, 1); the other samples are unconstrained. Timers, `requestAnimationFrame`, `ResizeObserver` and the resize listener are left out. Their callbacks are methods that the caller invokes in any order.
- Doubles are exact reals. Rounding, `NaN` and infinities are not modelled. A zero canvas height, which gives `NaN` in JavaScript, yields `None` from `WrappedY`.
- ProfileCard.SetVarsFromXY: `pcRound` (rounding to three decimals) is not modelled, and neither is `--pointer-from-center`, which needs `Math.hypot`.
- ProfileCard.TiltCard.PointerEnter: the 180 ms `entering` class is left out.
- ProfileCard.TiltCard.CheckSettle: the distance test uses the squared distance against 0.36, instead of `Math.hypot(...) < 0.6`.
- Starfield.ParticleCanvas.SpawnShootingStar: requires a canvas unless reduced motion is on, because the source reads `canvas.width` without a null guard and would throw.
- Starfield.ParticleCanvas.SpawnRocket: requires a canvas unless reduced motion is on or the viewport is mobile, for the same reason.
- Starfield.ParticleCanvas.InitCanvas: takes one draw record per star, and `isMobile()` is given the viewport width.
- RotatingText.Headline: the phrases are a constructor parameter, and the page builds the headline over the five phrases in `Texts`.
- RotatingText.BuildText: grapheme segmentation with `Intl.Segmenter` is modelled as one character per `char`.
- RotatingText.Headline.Swap: the `entering`, `visible` and `exiting` classes are reduced to the `exiting` flag.
- RotatingText.Headline.Advance: a change that arrives while a swap is still pending replaces the waiting fragment. The model does not capture the two overlapping timeouts that the page would run.
- Faq.Accordion: the model holds one accordion's items in an array. The per-item listener registration is not modelled.

## Findings

| source | as written | input that shows it | evidently intended | confidence | as-written member | corrected member |
|---|---|---|---|---|---|---|
| script.js:901-905 | `existing` is a static `NodeList`, whose `length` has only a getter. In strict mode `existing.length--` throws a `TypeError` after the first removal, so `measure` stops after removing one list and adds no clones. Without strict mode the decrement is ignored, and the next `removeChild` of the same node throws instead. | A second `measure` (any resize) of a correctly built track of five lists, for a 400 px list in a 900 px container, leaves four lists. | Remove every list but the original, then clone up to `copiesNeeded` lists. | not executed | LogoLoop.RepeatedMeasureLosesCopies | LogoLoop.Marquee.Measure |
