// The keyer: each call of `key` drives the transmitter pin through a fixed list
// of (level, sleep) steps that together fill one second of the frame.

module Keyer {
  import opened MsfFrame

  /** The pin level `clock_startstop` drives: 1 sets GPIO 4, 0 clears it. */
  datatype Level = PinSet | PinClear

  /** `clock_startstop(level)` followed by `nsleep(us)`. */
  datatype Pulse = Pulse(level: Level, us: nat)

  /** The code of the minute marker; the data codes are `(a << 4) + b`. */
  const MarkerCode: int := 0xff

  /** `unsigned long` on the 32-bit target. */
  const ULongModulus: int := 0x1_0000_0000

  /** The conversion of a C `int` to `unsigned long`, as done on every `nsleep`
      argument: the value modulo 2^32. */
  function ULong(x: int): (r: nat)
    ensures r < ULongModulus
    ensures 0 <= x < ULongModulus ==> r == x
  {
    x % ULongModulus
  }

  /** One `if (code == ...)` block of `key`: its steps when the test holds. */
  function Block(test: bool, steps: seq<Pulse>): seq<Pulse>
  {
    if test then steps else []
  }

  /** The steps of `key(code, offset)`: the five tests run one after another and
      at most one of them holds.  The marker's second sleep is `500 + offset`
      milliseconds. */
  function Key(code: int, offset: int): (ps: seq<Pulse>)
    ensures code !in {MarkerCode, 0x00, 0x01, 0x10, 0x11} ==> ps == []
  {
    Block(code == MarkerCode,
          [Pulse(PinSet, 500 * 1000), Pulse(PinClear, ULong((500 + offset) * 1000))]) +
    Block(code == 0x00, [Pulse(PinSet, 100 * 1000), Pulse(PinClear, 900 * 1000)]) +
    Block(code == 0x01, [Pulse(PinSet, 100 * 1000), Pulse(PinClear, 100 * 1000),
                         Pulse(PinSet, 100 * 1000), Pulse(PinClear, 700 * 1000)]) +
    Block(code == 0x10, [Pulse(PinSet, 200 * 1000), Pulse(PinClear, 800 * 1000)]) +
    Block(code == 0x11, [Pulse(PinSet, 300 * 1000), Pulse(PinClear, 700 * 1000)])
  }

  /** Total time the steps sleep, in microseconds. */
  function Duration(ps: seq<Pulse>): nat
  {
    if ps == [] then 0 else ps[0].us + Duration(ps[1..])
  }

  /** The level of the pin `t` microseconds after the first step, or None once
      the steps are over. */
  function LevelAt(ps: seq<Pulse>, t: int): Option<Level>
  {
    if ps == [] || t < 0 then None
    else if t < ps[0].us then Some(ps[0].level)
    else LevelAt(ps[1..], t - ps[0].us)
  }

  /** The steps set and clear the pin in turn, beginning with a set and ending
      with a clear. */
  predicate Alternates(ps: seq<Pulse>)
  {
    |ps| % 2 == 0 &&
    forall i :: 0 <= i < |ps| ==> ps[i].level == (if i % 2 == 0 then PinSet else PinClear)
  }

  /** The pin level over a data second carrying bits `a` and `b`: set for the
      first 100 ms, in the second 100 ms set exactly when `a` is 1, in the third
      set exactly when `b` is 1, and clear for the rest of the second. */
  function DataLevel(a: Bit, b: Bit, t: int): Level
  {
    if t < 100000 then PinSet
    else if t < 200000 then (if a == 1 then PinSet else PinClear)
    else if t < 300000 then (if b == 1 then PinSet else PinClear)
    else PinClear
  }

  /** What a receiver makes of one second of steps: the A bit from the level at
      150 ms, the B bit from the level at 250 ms. */
  function ReadSecond(ps: seq<Pulse>): Option<Slot>
  {
    match (LevelAt(ps, 150000), LevelAt(ps, 250000))
    case (Some(la), Some(lb)) =>
      Some(Slot(if la == PinSet then 1 else 0, if lb == PinSet then 1 else 0))
    case _ => None
  }

  /** The pin is defined exactly until the steps are over. */
  lemma {:induction false} LevelAtDuration(ps: seq<Pulse>, t: int)
    requires 0 <= t
    ensures LevelAt(ps, t).Some? <==> t < Duration(ps)
    decreases ps
  {
    if ps != [] && t >= ps[0].us {
      LevelAtDuration(ps[1..], t - ps[0].us);
    }
  }

  /** The four data codes. */
  lemma KeyDataSteps(a: Bit, b: Bit, offset: int)
    ensures Key(16 * a + b, offset) ==
      if a == 0 && b == 0 then [Pulse(PinSet, 100000), Pulse(PinClear, 900000)]
      else if a == 0 then [Pulse(PinSet, 100000), Pulse(PinClear, 100000),
                           Pulse(PinSet, 100000), Pulse(PinClear, 700000)]
      else if b == 0 then [Pulse(PinSet, 200000), Pulse(PinClear, 800000)]
      else [Pulse(PinSet, 300000), Pulse(PinClear, 700000)]
  {
  }

  /** A data code keys exactly one second, alternating from set to clear, and the
      offset plays no part. */
  lemma KeyDataSecond(a: Bit, b: Bit, offset: int)
    ensures Duration(Key(16 * a + b, offset)) == 1000000
    ensures Alternates(Key(16 * a + b, offset))
    ensures Key(16 * a + b, offset) == Key(16 * a + b, 0)
  {
    KeyDataSteps(a, b, offset);
    KeyDataSteps(a, b, 0);
    var ps := Key(16 * a + b, offset);
    if a == 0 && b == 1 {
      assert Duration(ps) == 100000 + Duration(ps[1..]);
      assert Duration(ps[1..]) == 100000 + Duration(ps[2..]);
      assert Duration(ps[2..]) == 100000 + Duration(ps[3..]);
      assert ps[3..][1..] == [];
    } else {
      assert ps[1..][1..] == [];
    }
  }

  /** The waveform of a data second: the level the pin holds at every instant of
      it is `DataLevel(a, b, t)`, the MSF carrier pattern for bits A and B. */
  lemma KeyWaveform(a: Bit, b: Bit, offset: int, t: int)
    requires 0 <= t < 1000000
    ensures LevelAt(Key(16 * a + b, offset), t) == Some(DataLevel(a, b, t))
  {
    KeyDataSteps(a, b, offset);
    var ps := Key(16 * a + b, offset);
    if a == 0 && b == 1 {
      if t >= 100000 {
        assert LevelAt(ps, t) == LevelAt(ps[1..], t - 100000);
        if t >= 200000 {
          assert LevelAt(ps[1..], t - 100000) == LevelAt(ps[2..], t - 200000);
          if t >= 300000 {
            assert LevelAt(ps[2..], t - 200000) == LevelAt(ps[3..], t - 300000);
          }
        }
      }
    } else if t >= ps[0].us {
      assert LevelAt(ps, t) == LevelAt(ps[1..], t - ps[0].us);
    }
  }

  /** A receiver recovers the slot a data code was keyed from. */
  lemma ReadKeyedSecond(a: Bit, b: Bit, offset: int)
    ensures ReadSecond(Key(16 * a + b, offset)) == Some(Slot(a, b))
  {
    KeyWaveform(a, b, offset, 150000);
    KeyWaveform(a, b, offset, 250000);
  }

  /** The minute marker: 500 ms set, then clear for `500 + offset` ms.  With an
      offset of at least -500 ms whose sleep fits in `unsigned long`, the second
      lasts `1000 + offset` ms. */
  lemma KeyMarker(offset: int)
    requires -500 <= offset && (500 + offset) * 1000 < ULongModulus
    ensures Key(MarkerCode, offset) ==
      [Pulse(PinSet, 500000), Pulse(PinClear, (500 + offset) * 1000)]
    ensures Duration(Key(MarkerCode, offset)) == 1000000 + 1000 * offset
    ensures Alternates(Key(MarkerCode, offset))
  {
    var ps := Key(MarkerCode, offset);
    assert ps == [Pulse(PinSet, 500000), Pulse(PinClear, (500 + offset) * 1000)];
    assert Duration(ps) == 500000 + Duration(ps[1..]);
    assert ps[1..][1..] == [];
  }

  /** With an offset below -500 ms the marker's second sleep is a negative
      product converted to `unsigned long`: it wraps to more than an hour. */
  lemma KeyMarkerWraps(offset: int)
    requires -1000 <= 500 + offset < 0
    ensures Key(MarkerCode, offset)[1].us == ULongModulus + (500 + offset) * 1000
    ensures Key(MarkerCode, offset)[1].us > 3600 * 1000000
  {
  }
}
