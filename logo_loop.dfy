/** The infinite logo marquee: a track holding the original list of logos
    followed by decorative clones, shifted left by `offset` pixels, where
    `offset` advances at a velocity smoothed toward 80 px/s (0 while the
    pointer hovers) and wraps modulo the width of one list. */
module LogoLoop {
  import opened Utilities

  const Speed: real := 80.0
  const SmoothTau: real := 0.25
  const MinCopies: nat := 2
  const CopyHeadroom: nat := 2
  const HoverSpeed: real := 0.0

  /** A list in the track: the original element, or a clone of it that has
      lost its id and is hidden from assistive technology. */
  datatype ListCopy = Original | Clone

  /** The track `measure` means to leave: the original and `n - 1` clones. */
  function Tiled(n: nat): (t: seq<ListCopy>)
    requires n >= 1
    ensures |t| == n && t[0] == Original
    ensures forall i :: 0 < i < |t| ==> t[i] == Clone
  {
    [Original] + seq(n - 1, _ => Clone)
  }

  /** Integer `Math.ceil(c / s)`: both widths are whole pixels here. */
  function CeilDiv(c: nat, s: nat): (q: nat)
    requires s > 0
    ensures c <= q * s
    ensures q > 0 ==> (q - 1) * s < c
  {
    if c == 0 then 0 else (c - 1) / s + 1
  }

  /** `containerW = container.clientWidth || seqWidth`. */
  function ContainerWidth(clientWidth: nat, seqWidth: nat): (w: nat)
    ensures clientWidth > 0 ==> w == clientWidth
    ensures clientWidth == 0 ==> w == seqWidth
  {
    if clientWidth > 0 then clientWidth else seqWidth
  }

  /** The number of lists the track needs: at least two, and enough that the
      tiled width covers the container plus two lists of headroom; no smaller
      count above two would. */
  function CopiesNeeded(containerW: nat, seqWidth: nat): (n: nat)
    requires seqWidth > 0
    ensures n >= MinCopies
    ensures n * seqWidth >= containerW + CopyHeadroom * seqWidth
    ensures n > MinCopies ==> (n - 1) * seqWidth < containerW + CopyHeadroom * seqWidth
  {
    var q := CeilDiv(containerW, seqWidth);
    if q + CopyHeadroom > MinCopies then q + CopyHeadroom else MinCopies
  }

  /** A 400 px list in a 900 px container needs five lists: four clones. */
  lemma FiveCopiesForNineHundred()
    ensures CopiesNeeded(900, 400) == 5
    ensures |Tiled(CopiesNeeded(900, 400))| - 1 == 4
  {
    assert CeilDiv(900, 400) == 3;
  }

  /** `dt` of one `animate` frame in seconds: 0 on the first frame, never
      negative, and the elapsed milliseconds over 1000 otherwise. */
  function FrameDt(lastTs: Option<real>, ts: real): (dt: real)
    ensures dt >= 0.0
    ensures lastTs.None? ==> dt == 0.0
    ensures lastTs.Some? && ts >= lastTs.value ==> dt * 1000.0 == ts - lastTs.value
    ensures lastTs.Some? && ts < lastTs.value ==> dt == 0.0
  {
    var last := if lastTs.None? then ts else lastTs.value;
    Max(0.0, ts - last) / 1000.0
  }

  function TargetSpeed(hovered: bool): real {
    if hovered then HoverSpeed else Speed
  }

  /** `velocity += (target - velocity) * k`: with `k` in [0, 1] the new
      velocity lies between the old one and the target, so it stays in
      [0, 80] once it is there. */
  function SmoothVelocity(v: real, hovered: bool, k: real): (r: real)
    ensures 0.0 <= k <= 1.0 ==> Between(v, TargetSpeed(hovered), r)
    ensures 0.0 <= k <= 1.0 && 0.0 <= v <= Speed ==> 0.0 <= r <= Speed
    ensures k == 0.0 ==> r == v
    ensures hovered && 0.0 <= k <= 1.0 && v >= 0.0 ==> r <= v
    ensures !hovered && 0.0 <= k <= 1.0 && v <= Speed ==> r >= v
  {
    Lerp(v, TargetSpeed(hovered), k)
  }

  /** The offset after one frame: advanced by `v * dt` and wrapped with
      `((x % w) + w) % w` into [0, w) when the list has a width, untouched
      when it has none. */
  function WrapOffset(offset: real, v: real, dt: real, seqWidth: int): (r: real)
    ensures seqWidth > 0 ==> 0.0 <= r < seqWidth as real
    ensures seqWidth > 0 ==> r == Mod(offset + v * dt, seqWidth as real)
    ensures seqWidth <= 0 ==> r == offset
  {
    if seqWidth > 0 then WrapMod(offset + v * dt, seqWidth as real) else offset
  }

  /** The wrap never shows a seam: when the advanced offset already lies in
      [0, w) it is kept as it is, and otherwise it moves by exactly one
      list width when one frame carries it past either end. */
  lemma WrapIsSeamless(offset: real, v: real, dt: real, w: int)
    requires w > 0
    ensures var x := offset + v * dt;
            0.0 <= x < w as real ==> WrapOffset(offset, v, dt, w) == x
    ensures var x := offset + v * dt;
            w as real <= x < 2.0 * w as real ==> WrapOffset(offset, v, dt, w) == x - w as real
    ensures var x := offset + v * dt;
            -(w as real) <= x < 0.0 ==> WrapOffset(offset, v, dt, w) == x + w as real
  {
    var m, x := w as real, offset + v * dt;
    if 0.0 <= x < m {
      ModUnique(x, m, x, 0);
    } else if m <= x < 2.0 * m {
      ModUnique(x, m, x - m, 1);
    } else if -m <= x < 0.0 {
      ModUnique(x, m, x + m, -1);
    }
  }

  /** The track as `measure` leaves it when the removal loop misbehaves:
      decrementing the length of a static node list fails in strict mode
      after the first removal, so with more than one list the call ends
      there, one list shorter and with no clones added. */
  function MeasureAsWritten(track: seq<ListCopy>, copiesNeeded: nat): (t: seq<ListCopy>)
    requires track != []
    ensures |track| > 1 ==> t == track[..|track| - 1]
    ensures |track| == 1 ==> |t| == copiesNeeded || (copiesNeeded == 0 && t == track)
  {
    if |track| > 1 then track[..|track| - 1]
    else track + seq(if copiesNeeded > 0 then copiesNeeded - 1 else 0, _ => Clone)
  }

  /** So a resize that keeps the widths does not keep the track: the second
      `measure` of a 400 px list in a 900 px container drops a list instead
      of leaving the five it needs. */
  lemma RepeatedMeasureLosesCopies()
    ensures MeasureAsWritten(Tiled(CopiesNeeded(900, 400)), CopiesNeeded(900, 400)) == Tiled(4)
    ensures Tiled(4) != Tiled(CopiesNeeded(900, 400))
  {
    FiveCopiesForNineHundred();
    assert Tiled(5)[..4] == Tiled(4);
  }

  /** The marquee's state: the measured list width, the offset, the
      smoothed velocity, the last frame time (null before the first frame),
      the hover flag and the lists in the track. */
  class Marquee {
    var seqWidth: int
    var offset: real
    var velocity: real
    var lastTs: Option<real>
    var isHovered: bool
    var track: seq<ListCopy>

    /** The track starts with the original list and holds only clones after
        it; the velocity stays within [0, 80]. */
    ghost predicate Valid()
      reads this
    {
      && track != [] && track[0] == Original
      && (forall i :: 0 < i < |track| ==> track[i] == Clone)
      && 0.0 <= velocity <= Speed
    }

    constructor ()
      ensures Valid()
      ensures seqWidth == 0 && offset == 0.0 && velocity == 0.0
      ensures lastTs == None && !isHovered && track == [Original]
    {
      seqWidth, offset, velocity := 0, 0.0, 0.0;
      lastTs, isHovered := None, false;
      track := [Original];
    }

    /** `measure`: take the rounded-up list width; with a positive width,
        cut the track back to its original list and clone it until the
        track holds `CopiesNeeded` lists. */
    method Measure(rectWidth: real, clientWidth: nat)
      requires Valid()
      modifies this
      ensures Valid()
      ensures seqWidth == Ceil(rectWidth)
      ensures seqWidth <= 0 ==> track == old(track)
      ensures seqWidth > 0 ==>
                track == Tiled(CopiesNeeded(ContainerWidth(clientWidth, seqWidth), seqWidth))
      ensures offset == old(offset) && velocity == old(velocity)
      ensures lastTs == old(lastTs) && isHovered == old(isHovered)
    {
      seqWidth := Ceil(rectWidth);
      if seqWidth <= 0 {
        return;
      }
      var containerW := ContainerWidth(clientWidth, seqWidth);
      var copiesNeeded := CopiesNeeded(containerW, seqWidth);
      while |track| > 1
        invariant 1 <= |track| <= |old(track)| && track == old(track)[..|track|]
        invariant offset == old(offset) && velocity == old(velocity)
        invariant lastTs == old(lastTs) && isHovered == old(isHovered)
        invariant seqWidth == Ceil(rectWidth)
        decreases |track|
      {
        track := track[..|track| - 1];
      }
      assert track == [Original];
      for i := 1 to copiesNeeded
        invariant track == Tiled(i)
        invariant offset == old(offset) && velocity == old(velocity)
        invariant lastTs == old(lastTs) && isHovered == old(isHovered)
        invariant seqWidth == Ceil(rectWidth)
      {
        track := track + [Clone];
      }
    }

    /** One `animate` frame at time `ts` (milliseconds); `blend(dt, tau)`
        stands for `1 - exp(-dt / tau)`. */
    method Animate(ts: real, blend: (real, real) -> real)
      requires Valid() && IsBlend(blend)
      modifies this
      ensures Valid()
      ensures lastTs == Some(ts)
      ensures velocity == SmoothVelocity(old(velocity), isHovered,
                                         blend(FrameDt(old(lastTs), ts), SmoothTau))
      ensures offset == WrapOffset(old(offset), velocity, FrameDt(old(lastTs), ts), seqWidth)
      ensures old(lastTs).None? ==> velocity == old(velocity) && (seqWidth > 0 ==> offset == Mod(old(offset), seqWidth as real))
      ensures seqWidth == old(seqWidth) && isHovered == old(isHovered) && track == old(track)
    {
      var dt := FrameDt(lastTs, ts);
      lastTs := Some(ts);
      var k := blend(dt, SmoothTau);
      velocity := SmoothVelocity(velocity, isHovered, k);
      offset := WrapOffset(offset, velocity, dt, seqWidth);
      assert old(lastTs).None? ==> velocity * dt == 0.0;
    }

    /** `mouseenter` / `mouseleave` on the track. */
    method SetHovered(hovered: bool)
      requires Valid()
      modifies this
      ensures Valid()
      ensures isHovered == hovered
      ensures seqWidth == old(seqWidth) && offset == old(offset) && velocity == old(velocity)
      ensures lastTs == old(lastTs) && track == old(track)
    {
      isHovered := hovered;
    }
  }
}
