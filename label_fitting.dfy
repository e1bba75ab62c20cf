/** How a category label is fitted into its band (src/polarAreaChart.ts:141-207):
    the space a label may take, the descending font-size search, the split of a
    label into words and onto two lines, and the character-by-character
    shortening of a single long word. The canvas's `measureText` is a parameter
    `width(text, fontSize)`: the width it reports once the font is set to that
    size, about which nothing is assumed beyond being a function. */
module LabelFitting {
  import opened Wrappers
  import opened Geometry

  // ---------------------------------------------------------------- space

  /** Lines 141-146: nine tenths of an eighth of the two radii together. */
  function AvailableSpace(innerRadius: real, outerRadius: real): real {
    (innerRadius + outerRadius) / 8.0 * 0.9
  }

  /** For the rings of a chart area, the space of a category label is 27/224 of
      the smaller side, and never negative. */
  lemma SpaceOfRings(width: real, height: real)
    requires width >= 0.0 && height >= 0.0
    ensures var r := RingsOf(width, height);
      AvailableSpace(r.inner, r.outer) == 27.0 / 224.0 * Min(width, height) &&
      0.0 <= AvailableSpace(r.inner, r.outer) <= r.outer
  {
    RingsAreNested(width, height);
  }

  // ---------------------------------------------------------------- font size

  /** Line 149: the search starts at a twenty-fifth of the outer radius. */
  function MaxFontSize(outerRadius: real): real { outerRadius / 25.0 }

  /** Line 150: it goes on while the size stays above a fortieth of it. */
  function MinFontSize(outerRadius: real): real { outerRadius / 40.0 }

  /** The size tried at the j-th pass of the search. */
  function Tried(max: real, j: nat): real { max - j as real }

  /** The text measures narrower than the space at this size. */
  predicate Fits(width: (string, real) -> real, text: string, space: real, size: real) {
    width(text, size) < space
  }

  /** Lines 148-161: try the largest size first and step down by one pixel while
      the size stays above the minimum; return the first size that fits, or the
      size reached when the steps run out. `steps` counts the decrements.

      The result is determined by these postconditions: every larger size that
      was tried was too wide, and either the result itself fits (it is the first
      size, or it lies above the minimum), or the search stepped below the
      minimum without finding one; in that case, for a positive radius, the
      result stays within one pixel of the minimum. */
  method AdjustFontSizeForSpace(width: (string, real) -> real, text: string, space: real, outerRadius: real)
    returns (size: real, ghost steps: nat)
    ensures size == Tried(MaxFontSize(outerRadius), steps)
    ensures forall j :: 0 <= j < steps ==> !Fits(width, text, space, Tried(MaxFontSize(outerRadius), j))
    ensures steps > 1 ==> Tried(MaxFontSize(outerRadius), steps - 1) > MinFontSize(outerRadius)
    ensures (Fits(width, text, space, size) && (steps == 0 || size > MinFontSize(outerRadius)))
         || (steps >= 1 && size <= MinFontSize(outerRadius))
    ensures size <= MaxFontSize(outerRadius)
    ensures outerRadius > 0.0 ==> size > MinFontSize(outerRadius) - 1.0
  {
    var max, min := MaxFontSize(outerRadius), MinFontSize(outerRadius);
    size, steps := max, 0;
    while true
      invariant size == Tried(max, steps)
      invariant forall j :: 0 <= j < steps ==> !Fits(width, text, space, Tried(max, j))
      invariant steps > 0 ==> size > min
      decreases if size > min then (size - min).Floor + 1 else 0
    {
      if width(text, size) < space {
        return;
      }
      size, steps := size - 1.0, steps + 1;
      if !(size > min) {
        return;
      }
    }
  }

  // ---------------------------------------------------------------- words

  /** `String.prototype.split(' ')`: the pieces between single spaces, empty
      pieces included; there is always at least one. */
  function Split(s: string): (ws: seq<string>)
    ensures |ws| >= 1
    ensures forall k :: 0 <= k < |ws| ==> ' ' !in ws[k]
  {
    if s == [] then [""]
    else
      var rest := Split(s[1..]);
      if s[0] == ' ' then [""] + rest
      else [[s[0]] + rest[0]] + rest[1..]
  }

  /** `Array.prototype.join(' ')`. */
  function Join(ws: seq<string>): string {
    if ws == [] then ""
    else if |ws| == 1 then ws[0]
    else ws[0] + " " + Join(ws[1..])
  }

  /** Joining the words of a label gives the label back. */
  lemma {:induction false} JoinSplit(s: string)
    ensures Join(Split(s)) == s
  {
    if s != [] {
      JoinSplit(s[1..]);
      var rest := Split(s[1..]);
      if s[0] == ' ' {
        assert ([""] + rest)[1..] == rest;
      } else {
        var ws := [[s[0]] + rest[0]] + rest[1..];
        if |rest| > 1 {
          assert ws[1..] == rest[1..];
          assert Join(rest) == rest[0] + " " + Join(rest[1..]);
        }
      }
    }
  }

  /** Splitting a joined list of space-free words gives the words back. */
  lemma {:induction false} SplitJoin(ws: seq<string>)
    requires |ws| >= 1 && forall k :: 0 <= k < |ws| ==> ' ' !in ws[k]
    ensures Split(Join(ws)) == ws
    decreases |ws|, |ws[0]|
  {
    if |ws| == 1 {
      SplitWord(ws[0]);
    } else {
      var tail := ws[1..];
      SplitJoin(tail);
      SplitJoinHead(ws[0], tail);
    }
  }

  /** A word without a space splits into itself. */
  lemma {:induction false} SplitWord(w: string)
    requires ' ' !in w
    ensures Split(w) == [w]
  {
    if w != [] {
      SplitWord(w[1..]);
      assert [w[0]] + w[1..] == w;
    }
  }

  /** Splitting `w + " " + t` for a space-free word `w` puts `w` before the pieces of `t`. */
  lemma {:induction false} SplitJoinHead(w: string, ws: seq<string>)
    requires ' ' !in w && |ws| >= 1 && Split(Join(ws)) == ws
    ensures Split(w + " " + Join(ws)) == [w] + ws
  {
    if w == [] {
      assert "" + " " + Join(ws) == [' '] + Join(ws);
      assert ([' '] + Join(ws))[1..] == Join(ws);
    } else {
      var s := w + " " + Join(ws);
      assert s[1..] == w[1..] + " " + Join(ws);
      SplitJoinHead(w[1..], ws);
      assert [w[0]] + w[1..] == w;
    }
  }

  /** Joining two non-empty runs of words is joining each and putting a space between. */
  lemma {:induction false} JoinConcat(a: seq<string>, b: seq<string>)
    requires |a| >= 1 && |b| >= 1
    ensures Join(a + b) == Join(a) + " " + Join(b)
    decreases |a|
  {
    if |a| == 1 {
      assert (a + b)[1..] == b;
    } else {
      JoinConcat(a[1..], b);
      assert (a + b)[1..] == a[1..] + b;
    }
  }

  /** A label laid out on two lines, or a single word that is still to be shortened. */
  datatype Layout = TwoLines(top: string, bottom: string) | OneWord(word: string)

  /** Lines 189-200: more than two words go on two lines split after the first
      `ceil(n / 2)` words; two words go one per line; otherwise the first word. */
  function Wrap(caption: string): Layout {
    var words := Split(caption);
    var n := |words|;
    if n > 2 then
      var middle := (n + 1) / 2;
      TwoLines(Join(words[..middle]), Join(words[middle..]))
    else if n == 2 then TwoLines(words[0], words[1])
    else OneWord(words[0])
  }

  /** The two lines of a wrapped label read as the label again with the break
      at a space, the top line holds the larger half of the words (at most one
      more than the bottom line), and a label that is not wrapped has no space. */
  lemma WrapKeepsLabel(caption: string)
    ensures Wrap(caption).TwoLines? <==> ' ' in caption
    ensures Wrap(caption).TwoLines? ==>
      var w := Wrap(caption);
      w.top + " " + w.bottom == caption &&
      |Split(w.top)| + |Split(w.bottom)| == |Split(caption)| &&
      |Split(w.bottom)| <= |Split(w.top)| <= |Split(w.bottom)| + 1
    ensures Wrap(caption).OneWord? ==> Wrap(caption).word == caption
  {
    var words := Split(caption);
    var n := |words|;
    JoinSplit(caption);
    SplitSpaces(caption);
    if n > 2 {
      var middle := (n + 1) / 2;
      assert words == words[..middle] + words[middle..];
      JoinConcat(words[..middle], words[middle..]);
      SplitJoin(words[..middle]);
      SplitJoin(words[middle..]);
    } else if n == 2 {
      assert words[1..] == [words[1]];
      SplitWord(words[0]);
      SplitWord(words[1]);
    }
  }

  /** A label splits into more than one piece exactly when it has a space. */
  lemma {:induction false} SplitSpaces(s: string)
    ensures |Split(s)| > 1 <==> ' ' in s
  {
    if s != [] {
      SplitSpaces(s[1..]);
      assert ' ' in s <==> s[0] == ' ' || ' ' in s[1..];
    }
  }

  // ---------------------------------------------------------------- truncation

  /** Line 201: a single word may take ten times the font size. */
  function MaxWordLength(fontSize: real): real { fontSize * 10.0 }

  /** `word.substring(0, word.length - 1)`: drop the last character; on the
      empty string the negative end is clamped to 0. */
  function DropLast(word: string): (r: string)
    ensures |word| > 0 ==> r == word[..|word| - 1]
    ensures |word| == 0 ==> r == word
  {
    if |word| == 0 then word else word[..|word| - 1]
  }

  /** Lines 201-206 as written: shorten while the word is too wide. This is
      written over a `fuel` bound on the passes, with `None` when the bound runs
      out before the loop would stop. */
  function TruncateAsWritten(width: (string, real) -> real, word: string, fontSize: real, fuel: nat): Option<string> {
    if width(word, fontSize) > MaxWordLength(fontSize) then
      if fuel == 0 then None else TruncateAsWritten(width, DropLast(word), fontSize, fuel - 1)
    else Some(word)
  }

  /** When the font size is negative, every word, the empty one included, is
      wider than the limit for any width a canvas can report, so the loop as
      written never stops: no bound on its passes is enough. */
  lemma {:induction false} TruncationAsWrittenDiverges(width: (string, real) -> real, word: string, fontSize: real, fuel: nat)
    requires fontSize < 0.0 && forall s :: width(s, fontSize) >= 0.0
    ensures TruncateAsWritten(width, word, fontSize, fuel) == None
  {
    assert width(word, fontSize) >= 0.0;
    if fuel > 0 {
      TruncationAsWrittenDiverges(width, DropLast(word), fontSize, fuel - 1);
    }
  }

  /** A concrete instance: a width proportional to the length, at font size -1,
      and "ab" never settles. */
  lemma TruncationAsWrittenHangs(fuel: nat)
    ensures TruncateAsWritten((s: string, f: real) => |s| as real, "ab", -1.0, fuel) == None
  {
    TruncationAsWrittenDiverges((s: string, f: real) => |s| as real, "ab", -1.0, fuel);
  }

  /** Lines 201-206 with the loop also stopping at the empty word: the longest
      prefix of the word that fits, or the empty word when no prefix does. */
  method TruncateToFit(width: (string, real) -> real, word: string, fontSize: real) returns (w: string)
    ensures w <= word
    ensures |w| == 0 || width(w, fontSize) <= MaxWordLength(fontSize)
    ensures forall k :: |w| < k <= |word| ==> width(word[..k], fontSize) > MaxWordLength(fontSize)
  {
    w := word;
    while |w| > 0 && width(w, fontSize) > MaxWordLength(fontSize)
      invariant w <= word
      invariant forall k :: |w| < k <= |word| ==> width(word[..k], fontSize) > MaxWordLength(fontSize)
      decreases |w|
    {
      assert word[..|w|] == w;
      w := DropLast(w);
    }
  }

  /** When the word fits at all, the corrected loop stops exactly where the loop
      as written does, with enough fuel for one pass per character. */
  lemma {:induction false} TruncationAgrees(width: (string, real) -> real, word: string, fontSize: real, w: string)
    requires w <= word && width(w, fontSize) <= MaxWordLength(fontSize)
    requires forall k :: |w| < k <= |word| ==> width(word[..k], fontSize) > MaxWordLength(fontSize)
    ensures TruncateAsWritten(width, word, fontSize, |word| - |w|) == Some(w)
    decreases |word|
  {
    if |word| > |w| {
      assert word[..|word|] == word;
      var shorter := DropLast(word);
      assert w <= shorter;
      forall k | |w| < k <= |shorter| ensures width(shorter[..k], fontSize) > MaxWordLength(fontSize) {
        assert shorter[..k] == word[..k];
      }
      TruncationAgrees(width, shorter, fontSize, w);
    } else {
      assert w == word[..|word|] == word;
    }
  }

  /** What the category pass draws for one label (lines 189-207): the two lines,
      or the single word shortened to fit at the given font size. */
  method CategoryText(width: (string, real) -> real, caption: string, fontSize: real) returns (r: Layout)
    ensures Wrap(caption).TwoLines? ==> r == Wrap(caption)
    ensures Wrap(caption).OneWord? ==>
      && r.OneWord? && r.word <= caption
      && (|r.word| == 0 || width(r.word, fontSize) <= MaxWordLength(fontSize))
      && (forall k :: |r.word| < k <= |caption| ==> width(caption[..k], fontSize) > MaxWordLength(fontSize))
  {
    var layout := Wrap(caption);
    if layout.TwoLines? {
      r := layout;
    } else {
      WrapKeepsLabel(caption);
      var w := TruncateToFit(width, layout.word, fontSize);
      r := OneWord(w);
    }
  }
}
