/** The rainbow generator `_rainbow` of app.js: a sweep of the hue wheel in
    three sectors of 85 hue units, one colour per hue step. */
module Rainbow {
  import opened Interpolation
  import opened Sequences

  /** The colour of one hue in [0, 256). Red falls while green rises over the
      first sector, green falls while blue rises over the second, and blue
      falls while red rises over the third. */
  function HueColor(hue: int): (c: Rgb)
    requires 0 <= hue < 256
    ensures IsByteColor(c)
    ensures c.r == 0.0 || c.g == 0.0 || c.b == 0.0
    ensures c.r + c.g + c.b == 255.0
  {
    if hue < 85 then
      Rgb((255 - hue * 3) as real, (hue * 3) as real, 0.0)
    else if hue < 170 then
      var p := hue - 85;
      Rgb(0.0, (255 - p * 3) as real, (p * 3) as real)
    else
      var p := hue - 170;
      Rgb((p * 3) as real, 0.0, (255 - p * 3) as real)
  }

  /** `hue_step = Math.floor(256 / ledCount)`. For no LEDs JavaScript divides
      by zero and gets Infinity, which, like any step of 256 or more, stops
      the sweep after the first hue. */
  function HueStep(ledCount: int): (step: int)
    requires 0 <= ledCount <= 256
    ensures 1 <= step <= 256
  {
    if ledCount == 0 then 256 else 256 / ledCount
  }

  /** The colours for the hues `hue`, `hue + step`, ... below 256. */
  function Sweep(hue: nat, step: nat): seq<Rgb>
    requires step >= 1
    decreases 256 - hue
  {
    if hue >= 256 then [] else [HueColor(hue)] + Sweep(hue + step, step)
  }

  /** `_rainbow`: pushes one colour per hue while the hue is below 256. The
      source never terminates when `floor(256 / ledCount)` is 0 or negative,
      which is why `ledCount` is limited to [0, 256]. */
  method Rainbow(ledCount: int) returns (rainbow: seq<Rgb>)
    requires 0 <= ledCount <= 256
    ensures rainbow == Sweep(0, HueStep(ledCount))
  {
    var hueStep := if ledCount == 0 then 256 else 256 / ledCount;
    assert hueStep == HueStep(ledCount);
    rainbow := [];
    var hue := 0;
    while hue < 256
      invariant hue >= 0
      invariant rainbow + Sweep(hue, hueStep) == Sweep(0, hueStep)
      decreases 256 - hue
    {
      var color := HueColor(hue);
      assert (rainbow + [color]) + Sweep(hue + hueStep, hueStep) == rainbow + Sweep(hue, hueStep) by {
        assert Sweep(hue, hueStep) == [color] + Sweep(hue + hueStep, hueStep);
        AppendAssociative(rainbow, [color], Sweep(hue + hueStep, hueStep));
      }
      rainbow := rainbow + [color];
      hue := hue + hueStep;
    }
    assert Sweep(hue, hueStep) == [];
    assert rainbow + [] == rainbow;
  }

  /** One more step adds one more `step` to the hue. */
  lemma MulSucc(k: int, step: int)
    ensures k * step + step == (k + 1) * step
  {
  }

  /** The i-th colour of a sweep is the colour of hue `hue + i * step`. */
  lemma {:induction false} SweepAt(hue: nat, step: nat, i: nat)
    requires step >= 1 && i < |Sweep(hue, step)|
    ensures hue + i * step < 256
    ensures Sweep(hue, step)[i] == HueColor(hue + i * step)
    decreases i
  {
    if i == 0 {
      assert Sweep(hue, step)[0] == HueColor(hue);
    } else {
      assert Sweep(hue, step)[i] == Sweep(hue + step, step)[i - 1] by {
        assert Sweep(hue, step) == [HueColor(hue)] + Sweep(hue + step, step);
      }
      SweepAt(hue + step, step, i - 1);
      assert hue + step + (i - 1) * step == hue + i * step by {
        MulSucc(i - 1, step);
      }
    }
  }

  /** Every colour of a sweep is a valid hardware colour with one channel
      off and the channels summing to 255. */
  lemma SweepColors(hue: nat, step: nat, i: nat)
    requires step >= 1 && i < |Sweep(hue, step)|
    ensures IsByteColor(Sweep(hue, step)[i])
    ensures Sweep(hue, step)[i].r == 0.0 || Sweep(hue, step)[i].g == 0.0 || Sweep(hue, step)[i].b == 0.0
    ensures Sweep(hue, step)[i].r + Sweep(hue, step)[i].g + Sweep(hue, step)[i].b == 255.0
  {
    SweepAt(hue, step, i);
  }

  /** A sweep holds one colour per hue step below 256: its last hue is below
      256 and one more step would reach 256. */
  lemma {:induction false} SweepLength(hue: nat, step: nat)
    requires step >= 1 && hue < 256
    ensures |Sweep(hue, step)| >= 1
    ensures hue + (|Sweep(hue, step)| - 1) * step < 256 <= hue + |Sweep(hue, step)| * step
    decreases 256 - hue
  {
    var n := |Sweep(hue, step)|;
    assert Sweep(hue, step) == [HueColor(hue)] + Sweep(hue + step, step);
    if hue + step < 256 {
      SweepLength(hue + step, step);
      MulSucc(n - 2, step);
      MulSucc(n - 1, step);
    } else {
      assert Sweep(hue + step, step) == [];
    }
  }

  /** For the 32-LED strip the step is 8 and the rainbow has 32 colours. */
  lemma RainbowFor32Leds()
    ensures HueStep(32) == 8
    ensures |Sweep(0, HueStep(32))| == 32
  {
    SweepLength(0, 8);
  }
}
