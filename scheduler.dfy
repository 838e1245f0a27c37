/**
 * The polling interval chosen once per authorised session
 * (index.js:63): `Math.floor(Math.random() * (120 - 45 + 1)) + 45`
 * seconds, with the random draw as a real number in [0, 1).
 */
module Scheduler {
  /** The interval in seconds for the draw `u`. */
  function IntervalSeconds(u: real): (s: int)
    requires 0.0 <= u < 1.0
    ensures 45 <= s <= 120
  {
    (u * (120 - 45 + 1) as real).Floor + 45
  }

  /** The period handed to setInterval, in milliseconds. */
  function PeriodMillis(u: real): (ms: int)
    requires 0.0 <= u < 1.0
    ensures 45000 <= ms <= 120000 && ms % 1000 == 0
  {
    IntervalSeconds(u) * 1000
  }

  /** Every whole number of seconds from 45 to 120 is the interval of some draw. */
  lemma EveryIntervalReachable(s: int)
    requires 45 <= s <= 120
    ensures IntervalSeconds((s - 45) as real / 76.0) == s
  {
    var u := (s - 45) as real / 76.0;
    assert u * 76.0 == (s - 45) as real;
  }

  /** The draws giving interval s form the interval [(s - 45) / 76, (s - 44) / 76): each interval is equally likely. */
  lemma IntervalOfDraw(u: real, s: int)
    requires 0.0 <= u < 1.0 && 45 <= s <= 120
    ensures IntervalSeconds(u) == s <==> (s - 45) as real / 76.0 <= u < (s - 44) as real / 76.0
  {
    var k := (u * 76.0).Floor;
    assert k as real <= u * 76.0 < k as real + 1.0;
  }
}
