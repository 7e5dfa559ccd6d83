/** The gradient builder: one segment of rounded colours per adjacent pair of
    colour stops, concatenated in stop order (`_calculateGradient` and
    `_setGradient` in app.js). */
module Gradients {
  import opened Interpolation

  /** The colour at index `i` of three channel sequences. */
  function Sample(p: Channels, i: int): Rgb
    requires 0 <= i < |p.red| && i < |p.green| && i < |p.blue|
  {
    Rgb(p.red[i], p.green[i], p.blue[i])
  }

  /** The pixels `_calculateGradient(start, end, count)` returns: the rounded
      per-channel spacing from `start` to `end`, `count` pixels long. */
  function Segment(start: Rgb, end: Rgb, count: int): (s: seq<Rgb>)
    ensures |s| == MaxI(count, 0)
  {
    if count <= 0 then []
    else
      var p := PixelLinspace(start, end, count);
      seq(count, i requires 0 <= i < count => RoundColor(Sample(p, i)))
  }

  /** `_calculateGradient`: pushes one rounded copy of the working pixel per
      index. */
  method CalculateGradient(start: Rgb, end: Rgb, count: int) returns (values: seq<Rgb>)
    ensures values == Segment(start, end, count)
  {
    var pixels := PixelLinspace(start, end, count);
    values := [];
    var i := 0;
    while i < count
      invariant 0 <= i <= MaxI(count, 0)
      invariant |values| == i
      invariant forall j :: 0 <= j < i ==> values[j] == RoundColor(Sample(pixels, j))
    {
      var currentPixel := Rgb(Round(pixels.red[i]) as real, Round(pixels.green[i]) as real, Round(pixels.blue[i]) as real);
      values := values + [currentPixel];
      i := i + 1;
    }
  }

  /** With whole-number endpoints a segment starts at its start stop and, when
      at least two pixels long, ends at its end stop. */
  lemma SegmentEnds(start: Rgb, end: Rgb, count: int)
    requires IsIntegralColor(start) && IsIntegralColor(end)
    ensures count >= 1 ==> Segment(start, end, count)[0] == start
    ensures count >= 2 ==> Segment(start, end, count)[count - 1] == end
  {
    if count >= 2 {
      var p := PixelLinspace(start, end, count);
      assert Sample(p, count - 1) == end;
    }
  }

  /** A segment between two valid hardware colours holds only valid hardware
      colours, each channel between the two stops' channels. */
  lemma SegmentBytes(start: Rgb, end: Rgb, count: int, i: int)
    requires IsByteColor(start) && IsByteColor(end)
    requires 0 <= i < count
    ensures IsByteColor(Segment(start, end, count)[i])
    ensures MinR(start.r, end.r) <= Segment(start, end, count)[i].r <= MaxR(start.r, end.r)
    ensures MinR(start.g, end.g) <= Segment(start, end, count)[i].g <= MaxR(start.g, end.g)
    ensures MinR(start.b, end.b) <= Segment(start, end, count)[i].b <= MaxR(start.b, end.b)
  {
    var p := PixelLinspace(start, end, count);
    LinspaceBetween(start.r, end.r, count, i);
    LinspaceBetween(start.g, end.g, count, i);
    LinspaceBetween(start.b, end.b, count, i);
    RoundBetween(p.red[i], MinR(start.r, end.r), MaxR(start.r, end.r));
    RoundBetween(p.green[i], MinR(start.g, end.g), MaxR(start.g, end.g));
    RoundBetween(p.blue[i], MinR(start.b, end.b), MaxR(start.b, end.b));
  }

  /** A segment between two equal whole-number stops is that colour throughout. */
  lemma SegmentConstant(c: Rgb, count: int)
    requires IsIntegralColor(c)
    ensures Segment(c, c, count) == seq(MaxI(count, 0), _ => c)
  {
    var s := Segment(c, c, count);
    forall i | 0 <= i < |s|
      ensures s[i] == c
    {
      LinspaceConstant(c.r, count, i);
      LinspaceConstant(c.g, count, i);
      LinspaceConstant(c.b, count, i);
    }
  }

  /** The length of the segment between `stops[j]` and `stops[j + 1]`: every
      segment has `size` pixels, the last one `extra` more. */
  function SegmentLength(stops: seq<Rgb>, j: int, size: nat, extra: nat): nat
  {
    size + (if j == |stops| - 2 then extra else 0)
  }

  /** The first `n` segments, concatenated in stop order. */
  function Segments(stops: seq<Rgb>, n: nat, size: nat, extra: nat): seq<Rgb>
    requires n <= |stops| - 1
    decreases n
  {
    if n == 0 then []
    else Segments(stops, n - 1, size, extra) + Segment(stops[n - 1], stops[n], SegmentLength(stops, n - 1, size, extra))
  }

  /** `singleGradientSize`: the pixels per segment, rounded down. */
  function SegmentSize(ledCount: nat, stopCount: int): nat
    requires stopCount >= 2
  {
    ledCount / (stopCount - 1)
  }

  /** The one pixel the last segment gains when the division is inexact. */
  function OddExtra(ledCount: nat, stopCount: int): nat
    requires stopCount >= 2
  {
    if ledCount % (stopCount - 1) != 0 then 1 else 0
  }

  /** The gradient `_setGradient` builds for `ledCount` pixels: segments of
      `floor(ledCount / (stops - 1))` pixels, and a single extra pixel on the
      last one when that division is inexact. Fewer than two stops build
      nothing. */
  function Gradient(stops: seq<Rgb>, ledCount: nat): seq<Rgb>
  {
    if |stops| < 2 then []
    else Segments(stops, |stops| - 1, SegmentSize(ledCount, |stops|), OddExtra(ledCount, |stops|))
  }

  /** The gradient with the whole remainder of the division given to the last
      segment, so that it covers the strip exactly. */
  function FullGradient(stops: seq<Rgb>, ledCount: nat): seq<Rgb>
  {
    if |stops| < 2 then []
    else
      var parts := |stops| - 1;
      Segments(stops, parts, SegmentSize(ledCount, |stops|), ledCount % parts)
  }

  /** The loop of `_setGradient` that gathers the segments. */
  method GradientPixels(stops: seq<Rgb>, ledCount: nat) returns (fullGradient: seq<Rgb>)
    ensures fullGradient == Gradient(stops, ledCount)
  {
    fullGradient := [];
    if |stops| < 2 {
      // the segment loop below would run no iteration
      return;
    }
    var parts := |stops| - 1;
    var singleGradientSize := ledCount / parts;
    var isOdd := ledCount % parts != 0;
    var index := 0;
    while index < parts
      invariant 0 <= index <= parts
      invariant fullGradient == Segments(stops, index, singleGradientSize, if isOdd then 1 else 0)
    {
      var isLast := index == |stops| - 2;
      var segment := CalculateGradient(stops[index], stops[index + 1], singleGradientSize + (if isOdd && isLast then 1 else 0));
      assert segment == Segment(stops[index], stops[index + 1], SegmentLength(stops, index, singleGradientSize, if isOdd then 1 else 0));
      fullGradient := fullGradient + segment;
      index := index + 1;
    }
  }

  lemma {:induction false} SegmentsLength(stops: seq<Rgb>, n: nat, size: nat, extra: nat)
    requires 2 <= |stops| && n <= |stops| - 1
    ensures |Segments(stops, n, size, extra)| == n * size + (if n == |stops| - 1 then extra else 0)
  {
    if n > 0 {
      SegmentsLength(stops, n - 1, size, extra);
      var len := SegmentLength(stops, n - 1, size, extra);
      assert |Segment(stops[n - 1], stops[n], len)| == len;
      assert n * size == (n - 1) * size + size;
    }
  }

  /** `_setGradient` produces `(stops - 1) * floor(ledCount / (stops - 1))`
      pixels, plus one when the division is inexact. */
  lemma GradientLength(stops: seq<Rgb>, ledCount: nat)
    requires |stops| >= 2
    ensures var parts := |stops| - 1;
      |Gradient(stops, ledCount)| == parts * (ledCount / parts) + (if ledCount % parts != 0 then 1 else 0)
  {
    SegmentsLength(stops, |stops| - 1, SegmentSize(ledCount, |stops|), OddExtra(ledCount, |stops|));
  }

  /** Euclidean division of a natural number by a positive one. */
  lemma DivMod(a: nat, d: nat)
    requires d > 0
    ensures a == d * (a / d) + a % d && 0 <= a % d < d
  {
  }

  /** The as-written gradient is never longer than the strip, and covers it
      exactly only when the remainder of the division is at most one. */
  lemma GradientCoversStripIff(stops: seq<Rgb>, ledCount: nat)
    requires |stops| >= 2
    ensures |Gradient(stops, ledCount)| <= ledCount
    ensures |Gradient(stops, ledCount)| == ledCount <==> ledCount % (|stops| - 1) <= 1
  {
    var parts := |stops| - 1;
    GradientLength(stops, ledCount);
    DivMod(ledCount, parts);
  }

  /** The corrected gradient covers the strip exactly, whatever the number of
      stops. */
  lemma FullGradientLength(stops: seq<Rgb>, ledCount: nat)
    requires |stops| >= 2
    ensures |FullGradient(stops, ledCount)| == ledCount
  {
    var parts := |stops| - 1;
    SegmentsLength(stops, parts, SegmentSize(ledCount, |stops|), ledCount % parts);
    DivMod(ledCount, parts);
  }

  /** `piece` sits in `s` at offset `lo`. */
  predicate Occurs(s: seq<Rgb>, lo: int, piece: seq<Rgb>)
  {
    0 <= lo && lo + |piece| <= |s| && s[lo..lo + |piece|] == piece
  }

  /** What sits in the left operand also sits in the concatenation. */
  lemma OccursInPrefix(a: seq<Rgb>, b: seq<Rgb>, lo: nat, piece: seq<Rgb>)
    requires Occurs(a, lo, piece)
    ensures Occurs(a + b, lo, piece)
  {
    assert (a + b)[lo..lo + |piece|] == a[lo..lo + |piece|];
  }

  /** The right operand sits right after the left one. */
  lemma OccursAsSuffix(a: seq<Rgb>, piece: seq<Rgb>)
    ensures Occurs(a + piece, |a|, piece)
  {
  }

  lemma SegmentsUnfold(stops: seq<Rgb>, n: nat, size: nat, extra: nat)
    requires 1 <= n <= |stops| - 1
    ensures Segments(stops, n, size, extra) ==
            Segments(stops, n - 1, size, extra) + Segment(stops[n - 1], stops[n], SegmentLength(stops, n - 1, size, extra))
  {
  }

  /** Segment `j` follows the segments before it, in stop order. */
  lemma {:induction false} SegmentsAt(stops: seq<Rgb>, n: nat, size: nat, extra: nat, j: nat)
    requires n <= |stops| - 1 && j < n
    ensures Occurs(Segments(stops, n, size, extra), |Segments(stops, j, size, extra)|,
                   Segment(stops[j], stops[j + 1], SegmentLength(stops, j, size, extra)))
  {
    var prefix := Segments(stops, n - 1, size, extra);
    var last := Segment(stops[n - 1], stops[n], SegmentLength(stops, n - 1, size, extra));
    SegmentsUnfold(stops, n, size, extra);
    if j < n - 1 {
      SegmentsAt(stops, n - 1, size, extra, j);
      OccursInPrefix(prefix, last, |Segments(stops, j, size, extra)|, Segment(stops[j], stops[j + 1], SegmentLength(stops, j, size, extra)));
    } else {
      OccursAsSuffix(prefix, last);
    }
  }

  /** With segments of `size` pixels, segment `j` starts at `j * size`. */
  lemma SegmentsOffset(stops: seq<Rgb>, size: nat, extra: nat, j: nat)
    requires |stops| >= 2 && j < |stops| - 1
    ensures Occurs(Segments(stops, |stops| - 1, size, extra), j * size,
                   Segment(stops[j], stops[j + 1], SegmentLength(stops, j, size, extra)))
  {
    SegmentsLength(stops, j, size, extra);
    var offset := |Segments(stops, j, size, extra)|;
    assert offset == j * size;
    SegmentsAt(stops, |stops| - 1, size, extra, j);
  }

  /** Within the as-written gradient, the segment for each stop pair appears
      at its offset, in stop order. */
  lemma GradientSegmentAt(stops: seq<Rgb>, ledCount: nat, j: nat)
    requires |stops| >= 2 && j < |stops| - 1
    ensures Occurs(Gradient(stops, ledCount), j * SegmentSize(ledCount, |stops|),
                   Segment(stops[j], stops[j + 1], SegmentLength(stops, j, SegmentSize(ledCount, |stops|), OddExtra(ledCount, |stops|))))
  {
    SegmentsOffset(stops, SegmentSize(ledCount, |stops|), OddExtra(ledCount, |stops|), j);
  }

  /** Stops that are valid hardware colours give a corrected gradient of
      valid hardware colours. */
  lemma FullGradientBytes(stops: seq<Rgb>, ledCount: nat)
    requires forall k :: 0 <= k < |stops| ==> IsByteColor(stops[k])
    ensures forall i :: 0 <= i < |FullGradient(stops, ledCount)| ==> IsByteColor(FullGradient(stops, ledCount)[i])
  {
    if |stops| >= 2 {
      SegmentsBytes(stops, |stops| - 1, SegmentSize(ledCount, |stops|), ledCount % (|stops| - 1));
    }
  }

  /** Two equal whole-number stops give that colour on every LED. */
  lemma GradientIdenticalStops(c: Rgb, ledCount: nat)
    requires IsIntegralColor(c)
    ensures Gradient([c, c], ledCount) == seq(ledCount, _ => c)
  {
    var stops := [c, c];
    DivMod(ledCount, 1);
    assert SegmentSize(ledCount, 2) == ledCount && OddExtra(ledCount, 2) == 0;
    assert SegmentLength(stops, 0, ledCount, 0) == ledCount;
    assert Segments(stops, 1, ledCount, 0) == [] + Segment(c, c, ledCount);
    SegmentConstant(c, ledCount);
  }

  lemma {:induction false} SegmentsBytes(stops: seq<Rgb>, n: nat, size: nat, extra: nat)
    requires n <= |stops| - 1
    requires forall k :: 0 <= k < |stops| ==> IsByteColor(stops[k])
    ensures forall i :: 0 <= i < |Segments(stops, n, size, extra)| ==> IsByteColor(Segments(stops, n, size, extra)[i])
  {
    if n > 0 {
      SegmentsBytes(stops, n - 1, size, extra);
      var prefix := Segments(stops, n - 1, size, extra);
      var len := SegmentLength(stops, n - 1, size, extra);
      var last := Segment(stops[n - 1], stops[n], len);
      forall i | 0 <= i < |last|
        ensures IsByteColor(last[i])
      {
        SegmentBytes(stops[n - 1], stops[n], len, i);
      }
      var s := Segments(stops, n, size, extra);
      forall i | 0 <= i < |s|
        ensures IsByteColor(s[i])
      {
        if i < |prefix| {
          assert s[i] == prefix[i];
        } else {
          assert s[i] == last[i - |prefix|];
        }
      }
    }
  }

  /** Stops that are valid hardware colours give a gradient of valid hardware
      colours. */
  lemma GradientBytes(stops: seq<Rgb>, ledCount: nat)
    requires forall k :: 0 <= k < |stops| ==> IsByteColor(stops[k])
    ensures forall i :: 0 <= i < |Gradient(stops, ledCount)| ==> IsByteColor(Gradient(stops, ledCount)[i])
  {
    if |stops| >= 2 {
      SegmentsBytes(stops, |stops| - 1, SegmentSize(ledCount, |stops|), OddExtra(ledCount, |stops|));
    }
  }
}
