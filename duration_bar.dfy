/** The duration bar of a notification with an auto-dismiss duration `d`:
    an interval callback writes the bar's width as `counter / d * 100`
    percent, adds 16 to `counter` (which starts at 15), and clears itself
    once `counter >= d`. Ticks are counted, not timed; widths are kept as
    exact fractions. */
module DurationBar {

  /** The counter's value before the first tick. */
  const FirstNumerator: int := 15

  /** What each tick adds to the counter. */
  const Step: int := 16

  /** How far the counter is below the duration, rounded down; the measure
      that makes the ticks stop. */
  function Gap(counter: int, d: real): nat
  {
    if d > counter as real then (d - counter as real).Floor else 0
  }

  lemma GapShrinks(counter: int, d: real)
    requires (counter + Step) as real < d
    ensures Gap(counter + Step, d) + Step == Gap(counter, d)
  {
  }

  /** The numerators the interval writes, starting from a counter value of
      `counter`: one per tick, the last one being the tick after which the
      counter reaches `d`. */
  function Ticks(counter: int, d: real): (written: seq<int>)
    decreases Gap(counter, d)
  {
    if (counter + Step) as real >= d then [counter]
    else
      GapShrinks(counter, d);
      [counter] + Ticks(counter + Step, d)
  }

  /** The width, in percent, that a tick with numerator `n` writes. */
  function WidthPercent(n: int, d: real): real
    requires d > 0.0
  {
    n as real / d * 100.0
  }

  /** The interval callback run to completion: the numerators of the widths
      it writes, in order. */
  method RunDurationBar(d: real) returns (written: seq<int>)
    requires d > 0.0
    ensures written == Ticks(FirstNumerator, d)
  {
    written := [];
    var counter := FirstNumerator;
    var running := true;
    while running
      invariant running ==> written + Ticks(counter, d) == Ticks(FirstNumerator, d)
      invariant !running ==> written == Ticks(FirstNumerator, d)
      decreases if running then Gap(counter, d) + 1 else 0
    {
      written := written + [counter];   // bar.style.width = counter / d * 100 %
      counter := counter + Step;
      if counter as real >= d {
        running := false;               // clearInterval
      } else {
        GapShrinks(counter - Step, d);
      }
    }
  }

  /** Every tick writes 15 + 16 * i, and there is at least one tick. */
  lemma {:induction false} TicksArithmetic(counter: int, d: real)
    ensures |Ticks(counter, d)| >= 1
    ensures forall i :: 0 <= i < |Ticks(counter, d)| ==> Ticks(counter, d)[i] == counter + Step * i
    decreases Gap(counter, d)
  {
    if (counter + Step) as real < d {
      GapShrinks(counter, d);
      TicksArithmetic(counter + Step, d);
    }
  }

  /** The interval stops at the first tick after which the counter is at
      least `d`, and not before. */
  lemma {:induction false} TicksStop(counter: int, d: real)
    ensures var w := Ticks(counter, d);
      |w| >= 1 && (w[|w| - 1] + Step) as real >= d &&
      forall i :: 0 <= i < |w| - 1 ==> (w[i] + Step) as real < d
    decreases Gap(counter, d)
  {
    if (counter + Step) as real < d {
      GapShrinks(counter, d);
      TicksStop(counter + Step, d);
      TicksArithmetic(counter + Step, d);
      TicksArithmetic(counter, d);
    }
  }

  /** The widths written only grow. */
  lemma WidthsIncrease(d: real, i: int, j: int)
    requires d > 0.0
    requires 0 <= i < j < |Ticks(FirstNumerator, d)|
    ensures WidthPercent(Ticks(FirstNumerator, d)[i], d) < WidthPercent(Ticks(FirstNumerator, d)[j], d)
  {
    TicksArithmetic(FirstNumerator, d);
    var w := Ticks(FirstNumerator, d);
    assert w[i] < w[j];
    assert w[i] as real / d < w[j] as real / d;
  }

  /** After the first tick, every width written is below 100%. */
  lemma LaterWidthsBelowFull(d: real, i: int)
    requires d > 0.0
    requires 1 <= i < |Ticks(FirstNumerator, d)|
    ensures WidthPercent(Ticks(FirstNumerator, d)[i], d) < 100.0
  {
    var w := Ticks(FirstNumerator, d);
    TicksStop(FirstNumerator, d);
    TicksArithmetic(FirstNumerator, d);
    assert w[i] == w[i - 1] + Step;
    assert (w[i] as real) < d;
    BelowOne(w[i] as real, d);
  }

  lemma BelowOne(x: real, d: real)
    requires 0.0 < d && x < d
    ensures x / d < 1.0
  {
    assert x / d * d == x;
  }

  /** The first width is 15/d, which reaches 100% exactly when d <= 15; in
      that case it is the only tick. */
  lemma FirstWidth(d: real)
    requires d > 0.0
    ensures Ticks(FirstNumerator, d)[0] == FirstNumerator
    ensures WidthPercent(FirstNumerator, d) >= 100.0 <==> d <= FirstNumerator as real
    ensures d <= (FirstNumerator + Step) as real <==> |Ticks(FirstNumerator, d)| == 1
  {
  }

  /** The last width written is less than one step short of 100%: the bar
      ends within 16/d of full, and below full unless d <= 15. */
  lemma LastWidthNearFull(d: real)
    requires d > 0.0
    ensures var w := Ticks(FirstNumerator, d);
      WidthPercent(w[|w| - 1], d) >= 100.0 - Step as real / d * 100.0 &&
      (d > FirstNumerator as real ==> WidthPercent(w[|w| - 1], d) < 100.0)
  {
    var w := Ticks(FirstNumerator, d);
    TicksStop(FirstNumerator, d);
    TicksArithmetic(FirstNumerator, d);
    var last := w[|w| - 1];
    assert (last + Step) as real / d >= 1.0;
    assert last as real / d + Step as real / d >= 1.0;
    if d > FirstNumerator as real {
      if |w| == 1 {
        assert last as real / d < 1.0;
      } else {
        LaterWidthsBelowFull(d, |w| - 1);
      }
    }
  }
}
