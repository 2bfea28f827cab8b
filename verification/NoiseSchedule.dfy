/** What both filters share: how fast noise adapts and its bounds tighten with the number of observations. */
module NoiseSchedule {
  import opened Bounds

  const MIN_OBSERVATIONS: nat := 3
  const WINDOW: real := 20.0
  const COUNT_MAX: nat := 0xFFFF_FFFF

  function Alpha(count: nat): (a: real)
    requires count >= MIN_OBSERVATIONS
    ensures 0.05 <= a <= 0.5
  {
    var steps := MinReal((count - 1) as real, WINDOW);
    assert 2.0 <= steps <= 20.0;
    InverseBounds(steps);
    1.0 / steps
  }

  lemma InverseBounds(x: real)
    requires 2.0 <= x <= 20.0
    ensures 0.05 <= 1.0 / x <= 0.5
  {
    assert (1.0 / x) * x == 1.0;
  }

  function Maturity(count: nat): (m: real)
    ensures 0.0 <= m <= 1.0
  {
    MinReal((count as real) / WINDOW, 1.0)
  }

  function SaturatingIncrement(count: nat): nat {
    if count < COUNT_MAX then count + 1 else COUNT_MAX
  }
}
