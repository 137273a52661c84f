// `nsleep`: a sleep of `period` microseconds handed to nanosleep as whole
// seconds and nanoseconds.

module Nsleep {

  datatype Timespec = Timespec(tvSec: int, tvNsec: int)

  /** A `timespec` nanosleep accepts, holding a whole number of microseconds. */
  predicate WholeMicros(ts: Timespec)
  {
    0 <= ts.tvSec && 0 <= ts.tvNsec < 1000000000 && ts.tvNsec % 1000 == 0
  }

  /** The microseconds a `timespec` stands for. */
  function Micros(ts: Timespec): int
  {
    ts.tvSec * 1000000 + ts.tvNsec / 1000
  }

  /** The split `nsleep` makes: seconds by division, the remaining microseconds
      as nanoseconds. */
  function Split(period: nat): (ts: Timespec)
    ensures WholeMicros(ts)
    ensures Micros(ts) == period
  {
    Timespec(period / 1000000, (period % 1000000) * 1000)
  }

  /** The split is the only valid `timespec` for its period. */
  lemma SplitUnique(period: nat, ts: Timespec)
    requires WholeMicros(ts) && Micros(ts) == period
    ensures ts == Split(period)
  {
    var us := ts.tvNsec / 1000;
    assert ts.tvNsec == us * 1000;
    assert 0 <= us < 1000000;
    assert period == ts.tvSec * 1000000 + us;
    assert period / 1000000 == ts.tvSec && period % 1000000 == us;
  }

  /** Splitting a `timespec`'s own microseconds gives it back. */
  lemma SplitMicros(ts: Timespec)
    requires WholeMicros(ts)
    ensures Micros(ts) >= 0 && Split(Micros(ts)) == ts
  {
    SplitUnique(Micros(ts), ts);
  }
}
