/** Linear spacing between two scalars and between two colours, channel by
    channel, as the LED controller computes them for gradients and fades.
    Numbers are exact reals: floating-point rounding error is not modelled. */
module Interpolation {

  /** A pixel colour. The strip buffer and the frames sent to the hardware may
      hold unrounded channel values, so the channels are reals. */
  datatype Rgb = Rgb(r: real, g: real, b: real)

  /** The three per-channel sequences `[stepRed, stepGreen, stepBlue]`. */
  datatype Channels = Channels(red: seq<real>, green: seq<real>, blue: seq<real>)

  function MaxI(a: int, b: int): int { if a < b then b else a }

  function MinR(a: real, b: real): real { if a < b then a else b }

  function MaxR(a: real, b: real): real { if a < b then b else a }

  /** JavaScript's Math.round: the nearest integer, a half rounded upwards. */
  function Round(x: real): (n: int)
    ensures n as real - 0.5 <= x < n as real + 0.5
  {
    (x + 0.5).Floor
  }

  predicate Integral(x: real) { x == x.Floor as real }

  /** A channel value the hardware accepts: an integer in [0, 255]. */
  predicate IsByte(x: real) { Integral(x) && 0.0 <= x <= 255.0 }

  predicate IsByteColor(c: Rgb) { IsByte(c.r) && IsByte(c.g) && IsByte(c.b) }

  predicate IsIntegralColor(c: Rgb) { Integral(c.r) && Integral(c.g) && Integral(c.b) }

  /** Rounding an integer leaves it as it is. */
  lemma RoundIntegral(x: real)
    requires Integral(x)
    ensures Round(x) as real == x
  {
    var k, n := x.Floor, Round(x);
    assert (n - k) as real == n as real - x;
  }

  /** Rounding stays within integer bounds of its argument. */
  lemma RoundBetween(x: real, lo: real, hi: real)
    requires Integral(lo) && Integral(hi) && lo <= x <= hi
    ensures lo <= Round(x) as real <= hi
  {
    var n, l, h := Round(x), lo.Floor, hi.Floor;
    assert (l as real) < n as real + 0.5 && n as real - 0.5 <= h as real;
    assert l < n + 1 && n <= h;
  }

  /** Every channel rounded with Math.round. */
  function RoundColor(c: Rgb): (d: Rgb)
    ensures IsIntegralColor(d)
    ensures IsIntegralColor(c) ==> d == c
    ensures IsByteColor(c) ==> IsByteColor(d)
  {
    var d := Rgb(Round(c.r) as real, Round(c.g) as real, Round(c.b) as real);
    assert IsIntegralColor(c) ==> d == c by {
      if IsIntegralColor(c) {
        RoundIntegral(c.r);
        RoundIntegral(c.g);
        RoundIntegral(c.b);
      }
    }
    d
  }

  /** The count used when the caller passes a falsy count (0 or undefined):
      roughly one value per unit of change, and never fewer than one. */
  function DefaultCount(start: real, end: real): (n: int)
    ensures n >= 1
    ensures n >= Round(end - start)
  {
    MaxI(Round(end - start), 1)
  }

  /** The i-th of `last + 1` evenly spaced values from `start` to `end`, in the
      closed form that needs no repeated addition. */
  function Spaced(start: real, end: real, last: nat, i: int): real
    requires last >= 1
  {
    ((i as real) * end + ((last - i) as real) * start) / (last as real)
  }

  /** Multiplying a spaced value back by the divisor gives the weighted sum. */
  lemma SpacedTimes(start: real, end: real, last: nat, i: int)
    requires last >= 1
    ensures Spaced(start, end, last, i) * (last as real) == (i as real) * end + ((last - i) as real) * start
  {
    var num := (i as real) * end + ((last - i) as real) * start;
    var q := num / (last as real);
    assert q * (last as real) == num;
  }

  /** Division by a positive divisor is cancellable. */
  lemma Cancel(q: real, x: real, d: real)
    requires d > 0.0 && q * d == d * x
    ensures q == x
  {
    assert (q - x) * d == 0.0;
  }

  /** Multiplying by a non-negative factor keeps the order. */
  lemma MulMonotone(w: real, x: real, y: real)
    requires w >= 0.0 && x <= y
    ensures w * x <= w * y
  {
    assert w * y - w * x == w * (y - x);
  }

  /** Multiplication distributes over a sum of two factors. */
  lemma AddMul(w: real, v: real, d: real, x: real)
    requires w + v == d
    ensures w * x + v * x == d * x
  {
  }

  /** A value whose positive multiple lies between two multiples lies
      between their factors. */
  lemma MulBetween(q: real, d: real, lo: real, hi: real)
    requires d > 0.0 && d * lo <= q * d <= d * hi
    ensures lo <= q <= hi
  {
    assert (q - lo) * d == q * d - d * lo;
    assert (hi - q) * d == d * hi - q * d;
  }

  /** Weights on values of at least `lo` give at least `lo` times the total
      weight. */
  lemma WeightedAbove(d: real, w: real, a: real, v: real, b: real, lo: real)
    requires w >= 0.0 && v >= 0.0 && w + v == d && lo <= a && lo <= b
    ensures d * lo <= w * a + v * b
  {
    MulMonotone(w, lo, a);
    MulMonotone(v, lo, b);
    AddMul(w, v, d, lo);
  }

  /** Weights on values of at most `hi` give at most `hi` times the total
      weight. */
  lemma WeightedBelow(d: real, w: real, a: real, v: real, b: real, hi: real)
    requires w >= 0.0 && v >= 0.0 && w + v == d && a <= hi && b <= hi
    ensures w * a + v * b <= d * hi
  {
    MulMonotone(w, a, hi);
    MulMonotone(v, b, hi);
    AddMul(w, v, d, hi);
  }

  /** A weighted mean `q` of `a` and `b` (weights `w` and `v` summing to
      `d`) lies between any bounds of both. */
  lemma WeightedBetween(q: real, d: real, w: real, a: real, v: real, b: real, lo: real, hi: real)
    requires w >= 0.0 && v >= 0.0 && w + v == d && d > 0.0
    requires lo <= a <= hi && lo <= b <= hi
    requires q * d == w * a + v * b
    ensures lo <= q <= hi
  {
    WeightedAbove(d, w, a, v, b, lo);
    WeightedBelow(d, w, a, v, b, hi);
    MulBetween(q, d, lo, hi);
  }

  /** Moving one unit of weight from `b` to `a` moves the weighted mean by
      `(a - b) / d`. */
  lemma WeightedStep(p: real, q: real, d: real, w: real, v: real, w1: real, v1: real, a: real, b: real)
    requires d > 0.0 && w1 == w + 1.0 && v == v1 + 1.0
    requires p * d == w * a + v * b
    requires q * d == w1 * a + v1 * b
    ensures q - p == (a - b) / d
  {
    AddMul(w, 1.0, w1, a);
    AddMul(v1, 1.0, v, b);
    AddMul(q, -p, q - p, d);
    assert d * ((a - b) / d) == a - b;
    Cancel(q - p, (a - b) / d, d);
  }

  /** The weighted mean of a value with itself is that value. */
  lemma WeightedConstant(q: real, d: real, w: real, v: real, x: real)
    requires d > 0.0 && w + v == d
    requires q * d == w * x + v * x
    ensures q == x
  {
    AddMul(w, v, d, x);
    Cancel(q, x, d);
  }

  /** Two weighted means with the same weights on the same values agree. */
  lemma WeightedSame(q1: real, q2: real, d: real, w1: real, v1: real, w2: real, v2: real, a: real, b: real)
    requires d > 0.0 && w1 == v2 && v1 == w2
    requires q1 * d == w1 * a + v1 * b
    requires q2 * d == w2 * b + v2 * a
    ensures q1 == q2
  {
    assert q1 * d == q2 * d;
    Cancel(q1, q2, d);
  }

  /** The first spaced value is the start, the last is the end. */
  lemma SpacedEnds(start: real, end: real, last: nat)
    requires last >= 1
    ensures Spaced(start, end, last, 0) == start
    ensures Spaced(start, end, last, last) == end
  {
    SpacedTimes(start, end, last, 0);
    SpacedTimes(start, end, last, last);
  }

  /** The values `_linspace(start, end, count)` returns. A count of 0 stands for
      every falsy count (0 and undefined); a negative count gives no values. */
  function LinspaceValues(start: real, end: real, count: int): (r: seq<real>)
    ensures count >= 1 ==> |r| == count
    ensures count == 0 ==> |r| == DefaultCount(start, end)
    ensures count < 0 ==> r == []
    ensures |r| >= 1 ==> r[0] == start
    ensures |r| >= 2 ==> r[|r| - 1] == end
  {
    var n := if count == 0 then DefaultCount(start, end) else count;
    if n < 2 then
      (if n == 1 then [start] else [])
    else
      SpacedEnds(start, end, n - 1);
      seq(n, i requires 0 <= i < n => Spaced(start, end, n - 1, i))
  }

  /** `_linspace`: fills an array of `count` slots from the top index down. */
  method Linspace(start: real, end: real, count: int) returns (output: seq<real>)
    ensures output == LinspaceValues(start, end, count)
  {
    var n := count;
    if n == 0 {
      n := MaxI(Round(end - start), 1);
    }
    if n < 2 {
      output := if n == 1 then [start] else [];
      return;
    }
    var a := new real[n];
    var last := n - 1;
    var i := last;
    while i >= 0
      invariant -1 <= i <= last
      invariant forall j :: i < j <= last ==> a[j] == Spaced(start, end, last, j)
    {
      a[i] := ((i as real) * end + ((last - i) as real) * start) / (last as real);
      assert a[i] == Spaced(start, end, last, i);
      i := i - 1;
    }
    output := a[..];
  }

  /** Every spaced value lies between the two endpoints. */
  lemma SpacedBetween(start: real, end: real, last: nat, i: int)
    requires last >= 1 && 0 <= i <= last
    ensures MinR(start, end) <= Spaced(start, end, last, i) <= MaxR(start, end)
  {
    SpacedTimes(start, end, last, i);
    WeightedBetween(Spaced(start, end, last, i), last as real, i as real, end, (last - i) as real, start,
                    MinR(start, end), MaxR(start, end));
  }

  lemma LinspaceBetween(start: real, end: real, count: int, i: int)
    requires 0 <= i < |LinspaceValues(start, end, count)|
    ensures MinR(start, end) <= LinspaceValues(start, end, count)[i] <= MaxR(start, end)
  {
    var r := LinspaceValues(start, end, count);
    if |r| >= 2 {
      SpacedBetween(start, end, |r| - 1, i);
    }
  }

  /** Consecutive spaced values differ by `(end - start) / last`. */
  lemma SpacedStep(start: real, end: real, last: nat, i: int)
    requires last >= 1
    ensures Spaced(start, end, last, i + 1) - Spaced(start, end, last, i) == (end - start) / (last as real)
  {
    SpacedTimes(start, end, last, i);
    SpacedTimes(start, end, last, i + 1);
    WeightedStep(Spaced(start, end, last, i), Spaced(start, end, last, i + 1), last as real,
                 i as real, (last - i) as real, (i + 1) as real, (last - (i + 1)) as real, end, start);
  }

  /** Consecutive values differ by the same amount: the spacing is even. */
  lemma LinspaceEvenSteps(start: real, end: real, count: int, i: int)
    requires 0 <= i < |LinspaceValues(start, end, count)| - 1
    ensures LinspaceValues(start, end, count)[i + 1] - LinspaceValues(start, end, count)[i] ==
            (end - start) / ((|LinspaceValues(start, end, count)| - 1) as real)
  {
    SpacedStep(start, end, |LinspaceValues(start, end, count)| - 1, i);
  }

  /** A spaced value between a value and itself is that value. */
  lemma SpacedConstant(x: real, last: nat, i: int)
    requires last >= 1
    ensures Spaced(x, x, last, i) == x
  {
    SpacedTimes(x, x, last, i);
    WeightedConstant(Spaced(x, x, last, i), last as real, i as real, (last - i) as real, x);
  }

  /** Spacing between a value and itself gives that value everywhere. */
  lemma LinspaceConstant(x: real, count: int, i: int)
    requires 0 <= i < |LinspaceValues(x, x, count)|
    ensures LinspaceValues(x, x, count)[i] == x
  {
    var r := LinspaceValues(x, x, count);
    if |r| >= 2 {
      SpacedConstant(x, |r| - 1, i);
    }
  }

  /** Swapping the endpoints mirrors the index. */
  lemma SpacedMirror(start: real, end: real, last: nat, i: int)
    requires last >= 1
    ensures Spaced(end, start, last, i) == Spaced(start, end, last, last - i)
  {
    SpacedTimes(end, start, last, i);
    SpacedTimes(start, end, last, last - i);
    WeightedSame(Spaced(end, start, last, i), Spaced(start, end, last, last - i), last as real,
                 i as real, (last - i) as real, (last - i) as real, (last - (last - i)) as real, start, end);
  }

  /** Swapping the endpoints reverses the sequence (a count of 1 always gives
      the start alone, so it is not symmetric). */
  lemma LinspaceReversed(start: real, end: real, count: int, i: int)
    requires count >= 2 && 0 <= i < count
    ensures LinspaceValues(end, start, count)[i] == LinspaceValues(start, end, count)[count - 1 - i]
  {
    SpacedMirror(start, end, count - 1, i);
  }

  /** `_pixelLinspace`: one `_linspace` per channel. With a falsy count each
      channel picks its own default length, so only a non-zero count makes the
      three sequences equally long. */
  function PixelLinspace(start: Rgb, end: Rgb, count: int): (c: Channels)
    ensures count != 0 ==> |c.red| == |c.green| == |c.blue| == MaxI(count, 0)
    ensures count == 0 ==> |c.red| >= 1 && |c.green| >= 1 && |c.blue| >= 1
    ensures |c.red| >= 1 && |c.green| >= 1 && |c.blue| >= 1 ==> Rgb(c.red[0], c.green[0], c.blue[0]) == start
  {
    Channels(LinspaceValues(start.r, end.r, count),
             LinspaceValues(start.g, end.g, count),
             LinspaceValues(start.b, end.b, count))
  }
}
