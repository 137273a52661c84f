// One pass of the transmit loop of `send_timecode`: from a clock sample
// (seconds and microseconds into the minute) it either waits for the next
// minute boundary or keys a whole frame, sixty calls of `key`.

module Scheduler {
  import opened MsfFrame
  import opened Keyer
  import Encoder
  import Decoder

  /** TIME_WAITMIN: how early, in microseconds, the wait ends before the minute. */
  const WaitMin: int := 3330

  /** TIME_SKEWTX: the fixed keying correction, in milliseconds. */
  const SkewTx: int := -13

  const MinuteUs: int := 60000000

  /** A frame may start up to 250 ms after the minute boundary. */
  const WindowUs: int := 250000

  /** A sample as `localtime` and `gettimeofday` deliver it: `tm_sec` (60 on a
      leap second) and `tv_usec`. */
  predicate ValidSample(sec: int, usec: int)
  {
    0 <= sec <= 60 && 0 <= usec < 1000000
  }

  /** The alignment test that sends the loop back to wait; the comparison
      `tv_usec / 1000.0 > 250` on exact reals is `usec > 250000`. */
  predicate Misaligned(sec: int, usec: int): (m: bool)
    ensures m <==> !(sec == 0 && usec <= WindowUs)
  {
    sec != 0 || (sec == 0 && usec > WindowUs)
  }

  /** Microseconds from the sample to the next minute boundary, as a signed number. */
  function ToMinute(sec: int, usec: int): int
  {
    MinuteUs - (sec * 1000000 + usec)
  }

  /** The sleep the loop asks for before trying again, given `delta`: `delta`
      less TIME_WAITMIN, and no sleep at all unless `delta` exceeds it. */
  function SleepFor(delta: int): (s: Option<nat>)
    ensures s.Some? <==> delta > WaitMin
    ensures s.Some? ==> s.value + WaitMin == delta && s.value > 0
  {
    if delta > WaitMin then Some(delta - WaitMin) else None
  }

  /** `delta` as written: the difference is stored in an `unsigned long`. */
  function DeltaAsWritten(sec: int, usec: int): (d: nat)
    ensures d < ULongModulus
    ensures 0 <= ToMinute(sec, usec) < ULongModulus ==> d == ToMinute(sec, usec)
    ensures -ULongModulus <= ToMinute(sec, usec) < 0 ==> d == ULongModulus + ToMinute(sec, usec)
  {
    ULong(ToMinute(sec, usec))
  }

  /** The wait as written, on the wrapped `delta`: a sample already past the
      boundary still sleeps, for nearly 2^32 us. */
  function WaitAsWritten(sec: int, usec: int): (w: Option<nat>)
    ensures w.Some? ==> w.value + WaitMin == DeltaAsWritten(sec, usec) < ULongModulus
    ensures WaitMin - ULongModulus < ToMinute(sec, usec) < 0 ==>
      w == Some(ULongModulus + ToMinute(sec, usec) - WaitMin)
  {
    SleepFor(DeltaAsWritten(sec, usec))
  }

  /** The wait on the signed distance to the minute, which the model uses. */
  function WaitFor(sec: int, usec: int): Option<nat>
  {
    SleepFor(ToMinute(sec, usec))
  }

  /** The keying offset in milliseconds: the skew, less the milliseconds by which
      the sample is late. */
  function Offset(usec: nat): (o: int)
    ensures o <= SkewTx
    ensures 1000 * (SkewTx - o) <= usec < 1000 * (SkewTx - o) + 1000
  {
    SkewTx - usec / 1000
  }

  /** The code `key` is called with for a slot: `(a << 4) + b`. */
  function Pack(s: Slot): (code: int)
    ensures code in {0x00, 0x01, 0x10, 0x11}
    ensures code / 16 == s.a && code % 16 == s.b
  {
    s.a * 16 + s.b
  }

  /** One call of `key`. */
  datatype KeyCall = KeyCall(code: int, offset: int)

  /** The outcome of one pass: wait (perhaps after a sleep) or transmit. */
  datatype Action = Wait(sleep: Option<nat>) | Transmit(calls: seq<KeyCall>)

  /** The calls that key a frame: the marker with the offset, then slots 1 to 59
      in order with the default offset 0. */
  function Calls(code: seq<Slot>, offset: int): (cs: seq<KeyCall>)
    requires |code| == SlotCount
    ensures |cs| == SlotCount
  {
    seq(SlotCount, i requires 0 <= i < SlotCount =>
      if i == 0 then KeyCall(MarkerCode, offset) else KeyCall(Pack(code[i]), 0))
  }

  /** The decision of one pass for a sample and the frame of the minute after it. */
  function Decide(sec: int, usec: nat, code: seq<Slot>): Action
    requires |code| == SlotCount
  {
    if Misaligned(sec, usec) then Wait(WaitFor(sec, usec))
    else Transmit(Calls(code, Offset(usec)))
  }

  /** The steps of a list of calls, one after another. */
  function Train(cs: seq<KeyCall>): seq<Pulse>
  {
    if cs == [] then [] else Key(cs[0].code, cs[0].offset) + Train(cs[1..])
  }

  /** The slot a receiver reads from the second keyed by one call. */
  function ReadCall(c: KeyCall): Slot
  {
    match ReadSecond(Key(c.code, c.offset))
    case Some(s) => s
    case None => Blank
  }

  /** What a receiver reads from the sixty seconds of a frame's calls: slot 0 is
      the marker and carries no bits. */
  function Received(cs: seq<KeyCall>): (code: seq<Slot>)
    requires |cs| == SlotCount
    ensures |code| == SlotCount
  {
    seq(SlotCount, i requires 0 <= i < SlotCount => if i == 0 then Blank else ReadCall(cs[i]))
  }

  /** One pass of the loop, for a sample and the broken-down time `next` of the
      minute after it: the alignment test, the wait, or the encoding of the frame
      followed by the dispatch loop. */
  method Iteration(sec: int, usec: nat, next: Tm) returns (act: Action)
    ensures act == Decide(sec, usec, TimeCode(next))
  {
    if sec != 0 || (sec == 0 && usec > WindowUs) {
      var delta := MinuteUs - (sec * 1000000 + usec);
      if delta > WaitMin {
        act := Wait(Some(delta - WaitMin));
      } else {
        act := Wait(None);
      }
      return;
    }
    var calls := KeyFrame(usec, next);
    act := Transmit(calls);
  }

  /** The transmitting branch: encode the frame of the following minute, compute
      the offset and run the dispatch loop. */
  method KeyFrame(usec: nat, next: Tm) returns (calls: seq<KeyCall>)
    ensures calls == Calls(TimeCode(next), Offset(usec))
  {
    var timecode := new Slot[SlotCount](_ => Blank);
    Encoder.EncodeTimecode(timecode, next);
    var offset := SkewTx - usec / 1000;
    calls := Dispatch(timecode, offset);
  }

  /** The dispatch loop: the marker with the offset, then `key` for slots 1 to 59. */
  method Dispatch(timecode: array<Slot>, offset: int) returns (calls: seq<KeyCall>)
    requires timecode.Length == SlotCount
    ensures calls == Calls(timecode[..], offset)
  {
    calls := [KeyCall(MarkerCode, offset)];
    for i := 1 to SlotCount
      invariant |calls| == i
      invariant calls == Calls(timecode[..], offset)[..i]
    {
      calls := calls + [KeyCall(Pack(timecode[i]), 0)];
    }
  }

  // ---- Alignment and waiting ----

  /** A pass transmits exactly when the sample lies in the first 250 ms of a minute. */
  lemma TransmitsIff(sec: int, usec: nat, code: seq<Slot>)
    requires |code| == SlotCount
    ensures Decide(sec, usec, code).Transmit? <==> sec == 0 && usec <= WindowUs
  {
  }

  /** Within a minute's sixty seconds `delta` does not wrap: it lies between 1 us
      and a whole minute, and the wait as written is the signed one. */
  lemma DeltaInRange(sec: int, usec: int)
    requires ValidSample(sec, usec) && sec <= 59
    ensures 1 <= DeltaAsWritten(sec, usec) <= MinuteUs
    ensures DeltaAsWritten(sec, usec) == ToMinute(sec, usec)
    ensures WaitAsWritten(sec, usec) == WaitFor(sec, usec)
  {
  }

  /** A pass that does not transmit waits: if it sleeps, it wakes TIME_WAITMIN
      before the next minute boundary; if it does not, it is already that close. */
  lemma WaitTarget(sec: int, usec: nat, code: seq<Slot>)
    requires |code| == SlotCount && ValidSample(sec, usec) && Misaligned(sec, usec)
    ensures Decide(sec, usec, code) == Wait(WaitFor(sec, usec))
    ensures WaitFor(sec, usec).Some? ==>
      sec * 1000000 + usec + WaitFor(sec, usec).value == MinuteUs - WaitMin
    ensures WaitFor(sec, usec).None? ==> ToMinute(sec, usec) <= WaitMin
  {
  }

  /** During a leap second the difference is negative and, stored in an
      `unsigned long`, wraps: a sample 1 us into second 60 sleeps 71 minutes. */
  lemma LeapSecondWait()
    ensures WaitAsWritten(60, 1) == Some(ULongModulus - 1 - WaitMin)
    ensures WaitAsWritten(60, 1).value > 71 * MinuteUs
    ensures WaitFor(60, 1) == None
  {
  }

  /** The signed wait never oversleeps the next minute boundary. */
  lemma WaitBounded(sec: int, usec: nat)
    requires ValidSample(sec, usec)
    ensures WaitFor(sec, usec).Some? ==> WaitFor(sec, usec).value < ToMinute(sec, usec)
  {
  }

  // ---- Keying offset ----

  /** On a transmitting pass the offset lies between -263 ms and -13 ms, so the
      marker's second sleep is at least 237 ms and never wraps. */
  lemma OffsetRange(sec: int, usec: nat)
    requires !Misaligned(sec, usec)
    ensures -263 <= Offset(usec) <= SkewTx
    ensures Key(MarkerCode, Offset(usec))[1].us == (500 + Offset(usec)) * 1000 >= 237000
  {
    KeyMarker(Offset(usec));
  }

  // ---- Dispatch ----

  /** A transmitting pass makes sixty calls: the marker with the offset first, then
      every slot from 1 to 59 in ascending order, each with a data code. */
  lemma DispatchOrder(sec: int, usec: nat, code: seq<Slot>)
    requires |code| == SlotCount && !Misaligned(sec, usec)
    ensures Decide(sec, usec, code).Transmit?
    ensures |Decide(sec, usec, code).calls| == SlotCount
    ensures Decide(sec, usec, code).calls[0] == KeyCall(MarkerCode, Offset(usec))
    ensures forall i :: 1 <= i < SlotCount ==>
      Decide(sec, usec, code).calls[i] == KeyCall(16 * code[i].a + code[i].b, 0)
    ensures forall i :: 1 <= i < SlotCount ==>
      Decide(sec, usec, code).calls[i].code in {0x00, 0x01, 0x10, 0x11}
  {
  }

  /** The receiver reads a data call's slot back. */
  lemma ReadPacked(s: Slot)
    ensures ReadCall(KeyCall(Pack(s), 0)) == s
  {
    ReadKeyedSecond(s.a, s.b, 0);
  }

  /** A receiver reads back every slot of the frame the calls were made for. */
  lemma ReceivedCalls(code: seq<Slot>, offset: int)
    requires |code| == SlotCount && code[0] == Blank
    ensures Received(Calls(code, offset)) == code
  {
    var cs := Calls(code, offset);
    forall i | 1 <= i < SlotCount
      ensures Received(cs)[i] == code[i]
    {
      assert cs[i] == KeyCall(Pack(code[i]), 0);
      ReadPacked(code[i]);
    }
  }

  /** End to end: the seconds keyed on a transmitting pass decode as the minute
      they announce. */
  lemma TransmittedMinute(sec: int, usec: nat, next: Tm)
    requires InDomain(next) && !Misaligned(sec, usec)
    ensures Decoder.Decode(Received(Decide(sec, usec, TimeCode(next)).calls)) == Some(next)
  {
    Decoder.FixedBits(next);
    ReceivedCalls(TimeCode(next), Offset(usec));
    Decoder.DecodeTimeCode(next);
  }

  // ---- Timing of a frame ----

  lemma {:induction false} DurationAppend(p: seq<Pulse>, q: seq<Pulse>)
    ensures Duration(p + q) == Duration(p) + Duration(q)
  {
    if p != [] {
      assert (p + q)[0] == p[0] && (p + q)[1..] == p[1..] + q;
      DurationAppend(p[1..], q);
    } else {
      assert p + q == q;
    }
  }

  /** Data calls key one second each. */
  lemma {:induction false} DataTrain(cs: seq<KeyCall>)
    requires forall i :: 0 <= i < |cs| ==> cs[i].code in {0x00, 0x01, 0x10, 0x11}
    ensures Duration(Train(cs)) == 1000000 * |cs|
  {
    if cs != [] {
      var c := cs[0].code;
      assert c == 16 * (c / 16) + c % 16;
      KeyDataSecond(c / 16, c % 16, cs[0].offset);
      DataTrain(cs[1..]);
      DurationAppend(Key(c, cs[0].offset), Train(cs[1..]));
    }
  }

  /** A frame lasts a minute plus the offset, so that keying, begun up to 250 ms
      after the boundary, ends 13 ms (less the sample's sub-millisecond part)
      before the following one. */
  lemma FrameTiming(sec: int, usec: nat, code: seq<Slot>)
    requires |code| == SlotCount && !Misaligned(sec, usec)
    ensures Duration(Train(Decide(sec, usec, code).calls)) == MinuteUs + 1000 * Offset(usec)
    ensures usec + Duration(Train(Decide(sec, usec, code).calls)) == MinuteUs - 13000 + usec % 1000
  {
    var cs := Decide(sec, usec, code).calls;
    DispatchOrder(sec, usec, code);
    OffsetRange(sec, usec);
    KeyMarker(Offset(usec));
    assert Train(cs) == Key(MarkerCode, Offset(usec)) + Train(cs[1..]);
    DataTrain(cs[1..]);
    DurationAppend(Key(MarkerCode, Offset(usec)), Train(cs[1..]));
  }
}
