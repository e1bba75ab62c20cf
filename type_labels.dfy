/** The type band's bookkeeping (src/polarAreaChart.ts:212-238) and the glyph
    order of a curved type label (src/polarAreaChart.ts:89-122). Segments are
    handled by index: segment i spans `StartAngle(n, pi, i)` to
    `StartAngle(n, pi, i + 1)`, and the radial lines are recorded as the
    indices they are drawn at. The chart has a single dataset, so one pass over
    its type cells is modelled. */
module TypeLabels {
  import opened Wrappers
  import opened Seqs
  import opened Geometry

  /** The entry `{start, end, count}` of the `typeAngles` map, by segment index:
      the first segment of the type, one past its last, and how many it has. */
  datatype Span = Span(start: int, end: int, count: nat)

  /** `previousType` when segment i is reached: null before the first one. */
  function Previous(types: seq<Option<string>>, i: nat): Option<string>
    requires i < |types|
  {
    if i == 0 then None else types[i - 1]
  }

  /** A radial line is drawn before segment i when its type differs from the previous one. */
  predicate IsDivider(types: seq<Option<string>>, i: nat)
    requires i < |types|
  {
    types[i] != Previous(types, i)
  }

  /** The segment indices at which lines are drawn, in drawing order. */
  function Dividers(types: seq<Option<string>>): (ds: seq<nat>)
    ensures forall k :: 0 <= k < |ds| ==> ds[k] < |types|
  {
    if types == [] then []
    else
      var n := |types| - 1;
      var init := types[..n];
      assert forall i :: 0 <= i < n ==> IsDivider(init, i) == IsDivider(types, i);
      Dividers(init) + (if IsDivider(types, n) then [n] else [])
  }

  /** The dividers are exactly the segments whose type changes, each listed
      once, in increasing order. */
  lemma {:induction false} DividersAreChanges(types: seq<Option<string>>)
    ensures forall i :: 0 <= i < |types| ==> (i in Dividers(types) <==> IsDivider(types, i))
    ensures forall a, b :: 0 <= a < b < |Dividers(types)| ==> Dividers(types)[a] < Dividers(types)[b]
  {
    if types != [] {
      var n := |types| - 1;
      var init := types[..n];
      DividersAreChanges(init);
      assert forall i :: 0 <= i < n ==> IsDivider(init, i) == IsDivider(types, i);
    }
  }

  /** Three segments of one type followed by two of another give two lines:
      at the start of each group. */
  lemma TwoGroupsTwoDividers()
    ensures Dividers([Some("A"), Some("A"), Some("A"), Some("B"), Some("B")]) == [0, 3]
  {
    var s := [Some("A"), Some("A"), Some("A"), Some("B"), Some("B")];
    assert s[..4][..3] == s[..3] && s[..3][..2] == s[..2] && s[..2][..1] == s[..1] && s[..1][..0] == [];
    assert Dividers(s[..1]) == [0];
    assert Dividers(s[..2]) == [0];
    assert Dividers(s[..3]) == [0];
    assert Dividers(s[..4]) == [0, 3];
  }

  /** Each type occupies one contiguous run of segments. */
  predicate Grouped(types: seq<Option<string>>) {
    forall i, j, k :: 0 <= i < j < k < |types| && types[i] == types[k] ==> types[j] == types[i]
  }

  /** When the types come in contiguous groups and all are set, one line is
      drawn per group: as many lines as distinct types. */
  lemma {:induction false} OneDividerPerGroup(types: seq<Option<string>>)
    requires Grouped(types) && None !in types
    ensures |Dividers(types)| == |AppendNew([], types)|
  {
    if types != [] {
      var n := |types| - 1;
      var init, t := types[..n], types[n];
      assert types == init + [t];
      assert Grouped(init) by {
        forall i, j, k | 0 <= i < j < k < |init| && init[i] == init[k] ensures init[j] == init[i] {
          assert types[i] == types[k];
        }
      }
      assert None !in init by {
        forall i | 0 <= i < |init| ensures init[i] != None { assert init[i] == types[i]; }
      }
      OneDividerPerGroup(init);
      RegisterSnoc(init, t);
      DividersSnoc(types, n);
      assert types[..n + 1] == types;
      if IsDivider(types, n) {
        NewGroupIsNewType(types);
      } else {
        assert init[n - 1] == t;
      }
    }
  }

  /** In grouped types, a type change at the last segment brings a type not seen before. */
  lemma NewGroupIsNewType(types: seq<Option<string>>)
    requires Grouped(types) && |types| > 0 && IsDivider(types, |types| - 1)
    ensures types[|types| - 1] !in types[..|types| - 1]
  {
    var n := |types| - 1;
    forall i | 0 <= i < n ensures types[i] != types[n] {
      if i < n - 1 {
        var a, b, c := types[i], types[n - 1], types[n];
        assert a == c ==> b == a;
      }
    }
  }

  /** The entry the pass builds for type `t`, by segment index. */
  function SpanOf(types: seq<Option<string>>, t: Option<string>): Span {
    Span(IndexOf(types, t), LastIndexOf(types, t) + 1, Count(types, t))
  }

  /** The `typeAngles` map after a pass over the segments `seen`, built one
      segment at a time as the pass does. */
  function SpansOf(seen: seq<Option<string>>): map<Option<string>, Span> {
    if seen == [] then map[]
    else
      var n := |seen| - 1;
      var m, t := SpansOf(seen[..n]), seen[n];
      var entry := if t in m then m[t] else Span(n, 0, 0);
      m[t := Span(entry.start, n + 1, entry.count + 1)]
  }

  /** The map holds an entry for exactly the types seen, and each entry is the
      type's first segment, one past its last, and its number of segments. */
  lemma {:induction false} SpansOfAt(seen: seq<Option<string>>, u: Option<string>)
    ensures u in SpansOf(seen) <==> u in seen
    ensures u in SpansOf(seen) ==> SpansOf(seen)[u] == SpanOf(seen, u)
  {
    if seen != [] {
      var n := |seen| - 1;
      var init, t := seen[..n], seen[n];
      assert seen == init + [t];
      SpansOfAt(init, u);
      IndexOfSnoc(init, t, u);
      LastIndexOfSnoc(init, t, u);
      CountSnoc(init, t, u);
    }
  }

  /** Lines 215-232: one pass over the segments builds the type map in
      first-appearance order (`keys`, the iteration order of the map) and draws
      a line at every change of type. Each entry starts at the first segment of
      its type, ends just past the last and counts the segments. */
  method GroupTypes(types: seq<Option<string>>)
    returns (keys: seq<Option<string>>, spans: map<Option<string>, Span>, dividers: seq<nat>)
    ensures keys == AppendNew([], types) && NoDuplicates(keys)
    ensures forall t :: t in keys <==> t in types
    ensures forall t :: t in spans <==> t in types
    ensures forall t :: t in spans ==> spans[t] == SpanOf(types, t)
    ensures dividers == Dividers(types)
  {
    keys, spans, dividers := [], map[], [];
    var previous: Option<string> := None;
    var i := 0;
    while i < |types|
      invariant i <= |types|
      invariant keys == AppendNew([], types[..i])
      invariant spans == SpansOf(types[..i])
      invariant dividers == Dividers(types[..i])
      invariant previous == if i == 0 then None else types[i - 1]
    {
      var t := types[i];
      assert types[..i + 1] == types[..i] + [t];
      keys, spans := TallyType(types[..i], t, keys, spans);
      DividersSnoc(types, i);
      if t != previous {
        dividers := dividers + [i];
      }
      previous := t;
      i := i + 1;
    }
    assert types[..i] == types;
    AppendNewMembers([], types);
    AppendNewNoDuplicates([], types);
    forall u ensures (u in spans <==> u in types) && (u in spans ==> spans[u] == SpanOf(types, u)) {
      SpansOfAt(types, u);
    }
  }

  /** One segment of the pass: register its type and update the type's entry,
      creating it at this segment when the type is new. */
  method TallyType(seen: seq<Option<string>>, t: Option<string>,
                   keys: seq<Option<string>>, spans: map<Option<string>, Span>)
    returns (keys1: seq<Option<string>>, spans1: map<Option<string>, Span>)
    requires keys == AppendNew([], seen) && spans == SpansOf(seen)
    ensures keys1 == AppendNew([], seen + [t]) && spans1 == SpansOf(seen + [t])
  {
    assert (seen + [t])[..|seen|] == seen;
    SpansOfAt(seen, t);
    RegisterSnoc(seen, t);
    keys1 := keys;
    if t !in spans {
      keys1 := keys1 + [t];
    }
    var entry := if t in spans then spans[t] else Span(|seen|, 0, 0);
    spans1 := spans[t := Span(entry.start, |seen| + 1, entry.count + 1)];
  }

  /** Registering one more name appends it when it is new. */
  lemma RegisterSnoc<T(!new)>(seen: seq<T>, t: T)
    ensures AppendNew([], seen + [t]) == var r := AppendNew([], seen); if t in seen then r else r + [t]
  {
    AppendNewConcat([], seen, [t]);
    AppendNewMembers([], seen);
    var r := AppendNew([], seen);
    assert AppendNew(r, [t]) == if t in r then r else r + [t] by {
      assert [t][1..] == [];
    }
  }

  /** Extending the segments by one adds a line exactly when the new one changes type. */
  lemma DividersSnoc(types: seq<Option<string>>, i: nat)
    requires i < |types|
    ensures Dividers(types[..i + 1]) ==
      Dividers(types[..i]) + (if types[i] != (if i == 0 then None else types[i - 1]) then [i] else [])
  {
    var s := types[..i + 1];
    assert s[..i] == types[..i];
    assert IsDivider(s, i) <==> types[i] != (if i == 0 then None else types[i - 1]);
  }

  // ---------------------------------------------------------------- label placement

  /** Line 235: a type label sits half-way between its entry's start and end angles. */
  function MiddleAngle(n: nat, pi: real, span: Span): real
    requires n > 0
  {
    (StartAngle(n, pi, span.start) + StartAngle(n, pi, span.end)) / 2.0
  }

  /** The label of the type spanning segments [start, end) is in the lower half,
      and so drawn reversed, exactly when n < 2 (start + end) < 3n. */
  lemma TypeLabelInLowerHalf(n: nat, pi: real, span: Span)
    requires n > 0 && pi > 0.0
    ensures InLowerHalf(MiddleAngle(n, pi, span), pi) <==> n < 2 * (span.start + span.end) < 3 * n
  {
    var m := n as real;
    var x := (2 * (span.start + span.end)) as real;
    MiddleAngleValue(n, pi, span);
    LowerHalfOfQuotient(pi, x, m);
  }

  /** The middle angle in closed form: pi (2 (start + end) - n) / 2n. */
  lemma MiddleAngleValue(n: nat, pi: real, span: Span)
    requires n > 0
    ensures MiddleAngle(n, pi, span) == pi * ((2 * (span.start + span.end)) as real - n as real) / (2.0 * n as real)
  {
    var m := n as real;
    var a := SegmentAngle(n, pi);
    assert a * m == 2.0 * pi;
    var mid := MiddleAngle(n, pi, span);
    assert mid * (2.0 * m) == pi * ((2 * (span.start + span.end)) as real - m) by {
      assert mid * (2.0 * m) == (a * m) * (span.start + span.end) as real - pi * m;
    }
  }

  /** A type with a single segment has its label where a category label of that
      segment would be. */
  lemma SingleSegmentLabel(n: nat, pi: real, i: nat)
    requires n > 0
    ensures MiddleAngle(n, pi, Span(i, i + 1, 1)) == LabelAngle(n, pi, i)
  {
    NextStart(n, pi, i);
  }

  // ---------------------------------------------------------------- glyphs

  /** One character of a type label, with the angle it is placed at, the
      rotation of the canvas when it is drawn, and its font size. */
  datatype Glyph = Glyph(ch: char, angle: real, rotation: real, fontSize: real)

  /** Line 96: glyph i of a label of `len` characters sits 0.05 rad per
      character from the label's angle, centred on it. */
  function CharAngle(angle: real, len: nat, i: nat): real {
    angle + (i as real - len as real / 2.0) * 0.05
  }

  /** Mirror glyph positions (i and len - 1 - i) lie symmetrically about the
      same point, half a step before the label's angle. */
  lemma GlyphsAreSymmetric(angle: real, len: nat, i: nat)
    requires i < len
    ensures CharAngle(angle, len, i) + CharAngle(angle, len, len - 1 - i) == 2.0 * angle - 0.05
  {
  }

  /** The characters of the glyphs, in drawing order. */
  function Text(glyphs: seq<Glyph>): (s: string)
    ensures |s| == |glyphs|
    ensures forall i :: 0 <= i < |s| ==> s[i] == glyphs[i].ch
  {
    if glyphs == [] then [] else Text(glyphs[..|glyphs| - 1]) + [glyphs[|glyphs| - 1].ch]
  }

  /** Line 105: the glyph font is a twentieth of the band's middle radius. */
  function TypeFontSize(innerRadius: real, outerRadius: real): real {
    (innerRadius + outerRadius) / 2.0 / 20.0
  }

  /** The text a label is drawn as at a given angle. */
  function LabelText(caption: string, angle: real, pi: real): string {
    if InLowerHalf(angle, pi) then Reverse(caption) else caption
  }

  /** Lines 89-122: one glyph per character, at increasing angles. In the lower
      half each glyph is turned a half turn further and the characters are
      taken from the end, so the drawn text is the label reversed; elsewhere it
      is the label itself. */
  method DrawTypeLabel(caption: string, angle: real, pi: real, innerRadius: real, outerRadius: real)
    returns (glyphs: seq<Glyph>)
    ensures Text(glyphs) == LabelText(caption, angle, pi)
    ensures forall i :: 0 <= i < |glyphs| ==>
      var a := CharAngle(angle, |caption|, i);
      glyphs[i].angle == a &&
      glyphs[i].rotation == (if InLowerHalf(angle, pi) then a + pi else a) + pi / 2.0 &&
      glyphs[i].fontSize == TypeFontSize(innerRadius, outerRadius)
  {
    var lower := angle > 0.0 && angle < pi;
    glyphs := [];
    var i := 0;
    while i < |caption|
      invariant i <= |caption| && |glyphs| == i
      invariant forall j :: 0 <= j < i ==>
        glyphs[j] == GlyphAt(caption, angle, pi, innerRadius, outerRadius, j)
    {
      var charAngle := angle + (i as real - |caption| as real / 2.0) * 0.05;
      var rotation := charAngle;
      if lower {
        rotation := rotation + pi;
      }
      var fontSize := (innerRadius + outerRadius) / 2.0 / 20.0;
      var ch := if lower then caption[|caption| - 1 - i] else caption[i];
      glyphs := glyphs + [Glyph(ch, charAngle, rotation + pi / 2.0, fontSize)];
      i := i + 1;
    }
    var r := LabelText(caption, angle, pi);
    assert Text(glyphs) == r by {
      forall j | 0 <= j < |r| ensures Text(glyphs)[j] == r[j] {
        assert glyphs[j] == GlyphAt(caption, angle, pi, innerRadius, outerRadius, j);
      }
    }
  }

  /** Glyph j as the loop draws it. */
  function GlyphAt(caption: string, angle: real, pi: real, innerRadius: real, outerRadius: real, j: nat): Glyph
    requires j < |caption|
  {
    var a := CharAngle(angle, |caption|, j);
    var lower := InLowerHalf(angle, pi);
    Glyph(if lower then caption[|caption| - 1 - j] else caption[j],
          a, (if lower then a + pi else a) + pi / 2.0, TypeFontSize(innerRadius, outerRadius))
  }

  // ---------------------------------------------------------------- the pass

  /** Lines 212-238: group the segments, then draw each type's label at the
      middle of its entry, in the map's order. A null type (the data has no type
      column) reaches `drawTypeLabel` as a null label, whose `length` throws:
      the labels are then `None`. The lines are drawn in the first loop, before
      any label, and are returned in both cases. */
  method DrawTypesNames(types: seq<Option<string>>, pi: real, outerRadius: real, fullOuterRadius: real)
    returns (dividers: seq<nat>, labels: Option<seq<seq<Glyph>>>)
    ensures dividers == Dividers(types)
    ensures labels.None? <==> None in types
    ensures labels.Some? ==>
      var keys := AppendNew([], types);
      |labels.value| == |keys| &&
      forall k :: 0 <= k < |keys| ==>
        keys[k].Some? && Text(labels.value[k]) == LabelText(keys[k].value, MiddleAngle(|types|, pi, SpanOf(types, keys[k])), pi)
  {
    var keys, spans;
    keys, spans, dividers := GroupTypes(types);
    labels := DrawLabels(keys, spans, |types|, pi, outerRadius, fullOuterRadius);
    if labels.Some? {
      forall k | 0 <= k < |keys| ensures
        keys[k].Some? && Text(labels.value[k]) == LabelText(keys[k].value, MiddleAngle(|types|, pi, SpanOf(types, keys[k])), pi)
      {
        assert keys[k] in spans;
      }
    }
  }

  /** Lines 234-237: the labels in the map's order, each at the middle of its
      entry; `None` when a key is null, as `drawTypeLabel` throws on it. */
  method DrawLabels(keys: seq<Option<string>>, spans: map<Option<string>, Span>, n: nat, pi: real,
                    outerRadius: real, fullOuterRadius: real)
    returns (labels: Option<seq<seq<Glyph>>>)
    requires forall t :: t in keys ==> t in spans
    requires |keys| > 0 ==> n > 0
    ensures labels.None? <==> None in keys
    ensures labels.Some? ==>
      && |labels.value| == |keys|
      && forall k :: 0 <= k < |keys| ==>
        keys[k].Some? && Text(labels.value[k]) == LabelText(keys[k].value, MiddleAngle(n, pi, spans[keys[k]]), pi)
  {
    var drawn: seq<seq<Glyph>> := [];
    var k := 0;
    while k < |keys|
      invariant k <= |keys| && |drawn| == k
      invariant forall j :: 0 <= j < k ==>
        keys[j].Some? && Text(drawn[j]) == LabelText(keys[j].value, MiddleAngle(n, pi, spans[keys[j]]), pi)
    {
      var t := keys[k];
      if t.None? {
        labels := None;
        return;
      }
      var glyphs := DrawTypeLabel(t.value, MiddleAngle(n, pi, spans[t]), pi, outerRadius, fullOuterRadius);
      drawn := drawn + [glyphs];
      k := k + 1;
    }
    assert None !in keys by {
      forall j | 0 <= j < |keys| ensures keys[j] != None { }
    }
    labels := Some(drawn);
  }

}
