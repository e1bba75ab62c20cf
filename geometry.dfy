/** The arithmetic of the outer-circle plugin `drawOuterCirclePlugin`
    (src/polarAreaChart.ts:241-331) and of the category-label placement
    (src/polarAreaChart.ts:167-178): the three ring radii, the sector of each
    segment, the label angle and rotation, and the colours the two ring passes
    fill each sector with. Angles are reals in radians; `Math.PI` is kept
    abstract as a positive real `pi`, since no property here depends on its
    digits. Canvas output (arcs, lines, text) is not modelled. */
module Geometry {
  import opened Wrappers
  import opened ColorCodec

  /** The inner radius (the edge of the polar area), the outer radius (the
      category band) and the full outer radius (the type band). */
  datatype Rings = Rings(inner: real, outer: real, full: real)

  function Min(a: real, b: real): (m: real)
    ensures m <= a && m <= b && (m == a || m == b)
  {
    if a <= b then a else b
  }

  /** Lines 247-249: half the smaller side of the chart area, then two bands of
      a fourteenth of it each. */
  function RingsOf(width: real, height: real): Rings {
    var m := Min(width, height);
    var inner := m / 2.0;
    var outer := inner + m / 14.0 * 1.0;
    Rings(inner, outer, outer + m / 14.0 * 1.0)
  }

  /** The rings are nested, both bands are equally wide, and the type band ends
      at nine fourteenths of the smaller side, outside the chart area itself. */
  lemma RingsAreNested(width: real, height: real)
    requires width >= 0.0 && height >= 0.0
    ensures var r := RingsOf(width, height);
      0.0 <= r.inner <= r.outer <= r.full &&
      r.outer - r.inner == r.full - r.outer &&
      r.full == 9.0 / 14.0 * Min(width, height) &&
      r.inner == Min(width, height) / 2.0
  {
  }

  // ---------------------------------------------------------------- sectors

  /** `2 * Math.PI / chart.data.labels.length`: the angle of one segment. */
  function SegmentAngle(n: nat, pi: real): real
    requires n > 0
  {
    2.0 * pi / n as real
  }

  /** `segmentAngle * i - Math.PI / 2`: where segment i starts (and where the
      dividing line before it is drawn); segment 0 starts at twelve o'clock. */
  function StartAngle(n: nat, pi: real, i: int): real
    requires n > 0
  {
    SegmentAngle(n, pi) * i as real - pi / 2.0
  }

  /** `startAngle + segmentAngle`: where segment i ends. */
  function EndAngle(n: nat, pi: real, i: int): real
    requires n > 0
  {
    StartAngle(n, pi, i) + SegmentAngle(n, pi)
  }

  /** n segments of 2 pi / n radians times n make up the full turn, and each
      segment is a positive angle. */
  lemma SegmentsMakeFullTurn(n: nat, pi: real)
    requires n > 0 && pi > 0.0
    ensures SegmentAngle(n, pi) * n as real == 2.0 * pi
    ensures SegmentAngle(n, pi) > 0.0
  {
    PositiveQuotient(2.0, pi, n as real);
  }

  /** The n sectors tile the circle: each is non-empty, each ends where the
      next starts, and the last ends a full turn after the first starts. */
  lemma SectorsTileCircle(n: nat, pi: real)
    requires n > 0 && pi > 0.0
    ensures forall i :: 0 <= i < n ==> StartAngle(n, pi, i) < EndAngle(n, pi, i)
    ensures forall i :: 0 <= i < n - 1 ==> EndAngle(n, pi, i) == StartAngle(n, pi, i + 1)
    ensures StartAngle(n, pi, 0) == -pi / 2.0
    ensures EndAngle(n, pi, n - 1) == StartAngle(n, pi, 0) + 2.0 * pi
  {
    SegmentsMakeFullTurn(n, pi);
    forall i | 0 <= i < n - 1 ensures EndAngle(n, pi, i) == StartAngle(n, pi, i + 1) {
      NextStart(n, pi, i);
    }
    var last: nat := n - 1;
    NextStart(n, pi, last);
    assert last + 1 == n;
    assert StartAngle(n, pi, n) == StartAngle(n, pi, 0) + SegmentAngle(n, pi) * n as real;
  }

  /** Segment i ends where segment i + 1 would start. */
  lemma NextStart(n: nat, pi: real, i: int)
    requires n > 0
    ensures EndAngle(n, pi, i) == StartAngle(n, pi, i + 1)
  {
    var a := SegmentAngle(n, pi);
    assert a * (i + 1) as real == a * i as real + a;
  }

  /** A product of a positive factor and d, over a positive divisor, has the sign of d. */
  lemma PositiveQuotient(p: real, d: real, q: real)
    requires p > 0.0 && q > 0.0
    ensures p * d / q > 0.0 <==> d > 0.0
    ensures p * d / q < 0.0 <==> d < 0.0
  {
    if d > 0.0 {
      assert p * d > 0.0;
    } else if d < 0.0 {
      assert p * d < 0.0;
    } else {
      assert p * d == 0.0;
    }
  }

  // ---------------------------------------------------------------- category labels

  /** Line 167: a category label sits at `segmentAngle * index + segmentAngle / 2 - Math.PI / 2`. */
  function LabelAngle(n: nat, pi: real, i: nat): real
    requires n > 0
  {
    SegmentAngle(n, pi) * i as real + SegmentAngle(n, pi) / 2.0 - pi / 2.0
  }

  /** The lower half of the circle, where labels are turned over: `angle > 0 && angle < Math.PI`. */
  predicate InLowerHalf(angle: real, pi: real) {
    0.0 < angle < pi
  }

  /** A category label is placed half-way through its segment. */
  lemma LabelAtMidSector(n: nat, pi: real, i: nat)
    requires n > 0
    ensures LabelAngle(n, pi, i) == (StartAngle(n, pi, i) + EndAngle(n, pi, i)) / 2.0
  {
  }

  /** Label i of n is turned over exactly when n < 4i + 2 < 3n: its segment's
      middle lies past three o'clock and before nine o'clock. */
  lemma LabelInLowerHalf(n: nat, pi: real, i: nat)
    requires n > 0 && pi > 0.0
    ensures InLowerHalf(LabelAngle(n, pi, i), pi) <==> n < 4 * i + 2 < 3 * n
  {
    LabelAngleValue(n, pi, i);
    LowerHalfOfQuotient(pi, (4 * i + 2) as real, n as real);
  }

  /** pi (x - m) / 2m lies strictly between 0 and pi exactly when m < x < 3m. */
  lemma LowerHalfOfQuotient(pi: real, x: real, m: real)
    requires pi > 0.0 && m > 0.0
    ensures InLowerHalf(pi * (x - m) / (2.0 * m), pi) <==> m < x < 3.0 * m
  {
    PositiveQuotient(pi, x - m, 2.0 * m);
    PositiveQuotient(pi, 3.0 * m - x, 2.0 * m);
    QuotientComplement(pi, x, m);
  }

  /** pi (3m - x) / 2m is what pi (x - m) / 2m leaves of pi. */
  lemma QuotientComplement(pi: real, x: real, m: real)
    requires m > 0.0
    ensures pi * (3.0 * m - x) / (2.0 * m) == pi - pi * (x - m) / (2.0 * m)
  {
    var d := 2.0 * m;
    assert pi * (3.0 * m - x) == pi * d - pi * (x - m);
    assert (pi * d - pi * (x - m)) / d == pi * d / d - pi * (x - m) / d;
    assert pi * d / d == pi;
  }

  /** The label angle in closed form: pi (4i + 2 - n) / 2n. */
  lemma LabelAngleValue(n: nat, pi: real, i: nat)
    requires n > 0
    ensures LabelAngle(n, pi, i) == pi * ((4 * i + 2) as real - n as real) / (2.0 * n as real)
  {
    var m := n as real;
    var a := SegmentAngle(n, pi);
    assert a * m == 2.0 * pi;
    var angle := LabelAngle(n, pi, i);
    assert angle * (2.0 * m) == pi * ((4 * i + 2) as real - m) by {
      assert angle * (2.0 * m) == 2.0 * (a * m) * i as real + a * m - pi * m;
    }
  }

  /** Lines 176-179: the text is turned perpendicular to the radius, plus a half
      turn in the lower half. */
  function LabelRotation(angle: real, pi: real): real {
    var r := angle + pi / 2.0;
    if InLowerHalf(angle, pi) then r + pi else r
  }

  /** A rotation that leaves text reading upright: within a quarter turn of
      horizontal, up to whole turns. */
  ghost predicate Upright(rotation: real, pi: real) {
    exists k: int :: -pi / 2.0 <= Unwound(rotation, pi, k) <= pi / 2.0
  }

  /** `rotation` less k whole turns. */
  function Unwound(rotation: real, pi: real, k: int): real {
    rotation - 2.0 * pi * k as real
  }

  /** Every label angle the chart produces (from twelve o'clock round to just
      before the next twelve o'clock) gets an upright rotation: the half turn in
      the lower half is what keeps those labels from being drawn upside down. */
  lemma LabelsReadUpright(angle: real, pi: real)
    requires pi > 0.0 && -pi / 2.0 <= angle < 3.0 * pi / 2.0
    ensures Upright(LabelRotation(angle, pi), pi)
  {
    var r := LabelRotation(angle, pi);
    if angle <= 0.0 {
      assert -pi / 2.0 <= Unwound(r, pi, 0) <= pi / 2.0;
    } else {
      assert -pi / 2.0 <= Unwound(r, pi, 1) <= pi / 2.0;
    }
  }

  // ---------------------------------------------------------------- ring colours

  /** Line 257: the type band of segment i takes `backgroundColorType[i % length]`. */
  function TypeFill(colorsType: seq<Option<string>>, i: nat): Option<string>
    requires |colorsType| > 0
  {
    colorsType[i % |colorsType|]
  }

  /** Lines 272-277: the category band re-alphas the stored colour to 1; when
      that throws (no `rgba(...)` in it, or a null colour, whose `match` throws
      too) the stored colour is used unchanged. */
  function CategoryFill(stored: Option<string>): Option<string> {
    match stored
    case None => None
    case Some(c) =>
      match AdjustRgbaAlpha(c, OpaqueAlpha)
      case Ok(solid) => Some(solid)
      case Err(_) => Some(c)
  }

  /** With one stored colour per segment, segment i is filled with its own colours. */
  lemma FillsFollowSegments(colorsType: seq<Option<string>>, colors: seq<Option<string>>, n: nat, i: nat)
    requires |colorsType| == |colors| == n && i < n
    ensures TypeFill(colorsType, i) == colorsType[i]
    ensures CategoryFill(colors[i % |colors|]) == CategoryFill(colors[i])
  {
    assert i % n == i;
  }

  /** A category colour made from a valid code at alpha 0.5 is filled with the
      same code at alpha 1: the category band is the opaque version of the
      segment colour. */
  lemma CategoryFillIsOpaque(hex: string)
    requires var h := StripHash(hex); (|h| == 6 || |h| == 3) && forall i :: 0 <= i < |h| ==> IsHexDigit(h[i])
    ensures CategoryFill(Some(HexToRgba(hex, HalfAlpha))) == Some(HexToRgba(hex, OpaqueAlpha))
  {
    HexRoundTrip(hex);
  }

  /** A palette entry that is not a colour code (a name such as "red") renders
      NaN channels, and the category band falls back to the stored text. */
  lemma CategoryFillKeepsUnparsed(hex: string)
    requires HexChannels(hex).r == NaN
    ensures CategoryFill(Some(HexToRgba(hex, HalfAlpha))) == Some(HexToRgba(hex, HalfAlpha))
  {
    assert forall i :: 0 <= i < |HalfAlpha| ==> IsAlphaChar(HalfAlpha[i]);
    NaNChannelIsRejected(hex, HalfAlpha, OpaqueAlpha);
  }
}
