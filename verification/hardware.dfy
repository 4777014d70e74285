/**
 * lib/hardware/hardware.c: one iteration of the potentiometer task (ten raw
 * ADC samples averaged with C truncation, clamped to the 12-bit range and turned
 * into a percentage) and the getter that publishes the stored percentage.
 * The ADC itself is an input: each read is what `adc1_get_raw` returned.
 */
module Hardware {
  import opened Machine

  const SAMPLES: nat := 10
  const ADC_MAX: nat := 4095

  /** A result of `adc1_get_raw` at 12-bit width: -1 on error, else 0..4095. */
  type AdcRead = r: int | -1 <= r <= 4095

  /** The task's stored `potentiometer_value`. */
  datatype Potentiometer = Potentiometer(value: Byte)

  const INITIAL: Potentiometer := Potentiometer(0)

  /** Sum of the samples, as the `int32_t` accumulator holds it (ten 12-bit
      samples never leave its range). */
  function Sum(samples: seq<AdcRead>): (s: int)
    ensures -|samples| <= s <= ADC_MAX * |samples|
  {
    if |samples| == 0 then 0 else Sum(samples[..|samples| - 1]) + samples[|samples| - 1]
  }

  /** `sum / samples` in C: truncated toward zero, so an average of samples that
      are all in [-1, 4095] is itself in [-1, 4095]. */
  function Average(samples: seq<AdcRead>): (a: int)
    requires |samples| == SAMPLES
    ensures -1 <= a <= ADC_MAX
  {
    CDiv(Sum(samples), SAMPLES)
  }

  /** The clamp into [0, 4095]. */
  function Clamp(v: int): (c: int)
    ensures 0 <= c <= ADC_MAX
    ensures 0 <= v <= ADC_MAX ==> c == v
    ensures v < 0 ==> c == 0
    ensures v > ADC_MAX ==> c == ADC_MAX
  {
    if v < 0 then 0 else if v > ADC_MAX then ADC_MAX else v
  }

  /** `(uint8_t)((raw_value * 100) / 4095)` on a clamped value. */
  function Percent(clamped: int): (p: Byte)
    requires 0 <= clamped <= ADC_MAX
    ensures p <= 100
    ensures p * ADC_MAX <= clamped * 100 < (p + 1) * ADC_MAX
  {
    clamped * 100 / ADC_MAX
  }

  lemma PercentMonotone(a: int, b: int)
    requires 0 <= a <= b <= ADC_MAX
    ensures Percent(a) <= Percent(b)
  {
  }

  lemma PercentEnds(v: int)
    requires 0 <= v <= ADC_MAX
    ensures v <= 40 ==> Percent(v) == 0
    ensures v == ADC_MAX ==> Percent(v) == 100
  {
  }

  /** One iteration of `hardware_task`: the first read is taken and thrown
      away, the next ten are summed in a loop, then averaged, clamped and
      stored as a percentage. */
  method Sample(discarded: AdcRead, samples: seq<AdcRead>) returns (p: Potentiometer)
    requires |samples| == SAMPLES
    ensures p.value == Percent(Clamp(CDiv(Sum(samples), SAMPLES)))
    ensures p.value <= 100
  {
    var raw: int := discarded;
    var sum: int := 0;
    var i := 0;
    while i < SAMPLES
      invariant 0 <= i <= SAMPLES
      invariant sum == Sum(samples[..i])
      invariant INT32_MIN <= sum <= INT32_MAX
    {
      assert samples[..i + 1][..i] == samples[..i];
      sum := sum + samples[i];
      i := i + 1;
    }
    assert samples[..SAMPLES] == samples;
    raw := CDiv(sum, SAMPLES);
    raw := Clamp(raw);
    p := Potentiometer(Percent(raw));
  }

  /** Ten equal non-negative samples average to that read exactly. */
  lemma SteadyReadsAverageExactly(samples: seq<AdcRead>, v: int)
    requires |samples| == SAMPLES && 0 <= v <= ADC_MAX
    requires forall i :: 0 <= i < |samples| ==> samples[i] == v
    ensures Average(samples) == v
    ensures Percent(Clamp(Average(samples))) == Percent(v)
  {
    SumConstant(samples, v);
  }

  lemma {:induction false} SumConstant(samples: seq<AdcRead>, v: int)
    requires forall i :: 0 <= i < |samples| ==> samples[i] == v
    ensures Sum(samples) == v * |samples|
  {
    if |samples| > 0 {
      SumConstant(samples[..|samples| - 1], v);
    }
  }

  /** `hardware_getPotentiometerValue`: the stored percentage, at most 100
      once the task has sampled at least once (and 0 before). */
  function GetPotentiometerValue(p: Potentiometer): (v: Byte)
    ensures p == INITIAL ==> v == 0
  {
    p.value
  }

  lemma PublishedValueIsPercentage(discarded: AdcRead, samples: seq<AdcRead>, p: Potentiometer)
    requires |samples| == SAMPLES
    requires p.value == Percent(Clamp(CDiv(Sum(samples), SAMPLES)))
    ensures GetPotentiometerValue(p) <= 100
    ensures Clamp(Average(samples)) == ADC_MAX ==> GetPotentiometerValue(p) == 100
  {
  }
}
