# pimsf: a verified model of the MSF time-code transmitter

pimsf turns a Raspberry Pi GPIO pin into a 60 kHz MSF time-signal transmitter.
Each minute it samples the system clock. If the sample is not within the first
250 ms of a minute, it sleeps until just before the next one. Otherwise it keys
a whole minute: a 60-slot frame of (A, B) bit pairs that announces the minute
that follows.

- **Frame contents.** The A bits of slots 17 to 51 carry BCD year, month, day,
  day of week, hour and minute. Slots 52 to 59 carry the 0111 1110 marker.
  B bits 54 to 57 are odd-parity bits and B bit 58 is summer time.
- **Encoding.** The encoder fills the frame by greedy subtraction over the
  weights 80, 40, 20, 10, 8, 4, 2, 1.
- **Keying.** Each slot is keyed by `key` as a fixed pattern of pin set/clear
  steps filling one second.
- **Timing.** The minute marker's last step is shortened by an offset that
  absorbs the lateness of the clock sample.

The model has six modules.

- `MsfFrame` (`msf_frame.dfy`): the data model and the specification of the frame.
  - bits, slots, the broken-down time `Tm`, the weight table and the greedy loop;
  - `Frame(fs, dst)`, the layout for any field bits and summer-time bit;
  - `TimeCode(t)`, the frame for minute `t`.
- `Encoder` (`encoder.dfy`): `encode_timecode` as an imperative method.
  - It zeroes an `array<Slot>` and writes it through the same six greedy loops,
    the same running parity counts and the same fixed-bit loop.
  - It is proved to leave exactly `TimeCode(t)` in the array.
  - The six inline loops of the source are one helper method, `EncodeField`,
    called six times with the source's start slots, start indices and parity
    counters. `EncodeGroup` runs it for a field with its own parity bit, and
    `EncodePair` for the two fields that share one.
- `Bcd` (`bcd.dfy`) has facts about the greedy weighting:
  - it splits over concatenation;
  - it commutes with scaling by ten;
  - on power-of-two weights it is binary notation.
- `Decoder` (`decoder.dfy`) is an independent receiver-side reading of the frame:
  BCD digits, parity checks and the marker. It proves two things:
  - decoding inverts the encoder on every minute of 2000 to 2099;
  - only encoder frames decode.
- `Keyer` (`keyer.dfy`) has `key` as a function from a code and an offset to its
  list of (pin level, microseconds) steps. It also has:
  - the waveform those steps put on the pin;
  - a receiver's reading of one second.
- `Nsleep` (`nsleep.dfy`) has the split of a microsecond period into a `timespec`.
- `Scheduler` (`scheduler.dfy`) has one pass of the `send_timecode` loop, as the
  method `Iteration` and the specification function `Decide`. The pass does three
  things:
  - the alignment test;
  - the wait;
  - on a transmitting pass, the encoding and the dispatch loop of sixty `key` calls.

The clock and calendar are not computed. `Iteration` takes them as parameters:

- `sec` is `tm_sec`;
- `usec` is `tv_usec`;
- `next` is `localtime(tv_sec + 60)`.

## Model

| member | source | states |
|---|---|---|
| Encoder.EncodeTimecode | pimsf.c:104-219 | after zeroing and all writes, the array holds exactly `TimeCode(t)`, the frame laid out from `t`'s field bits, parity bits and summer-time bit |
| Encoder.EncodeField | pimsf.c:115-126 | one greedy loop over a weight table `bcd`: the A bits of the field's slots become the greedy bits of the value over the weights from `bcdindex` on, no other slot changes, and `sum` grows by the number of bits set |
| Encoder.EncodeGroup | pimsf.c:114-129 | a field with a parity bit of its own: its greedy bits go into its slots, then the parity slot's B bit is set exactly when those bits hold an even number of ones |
| Encoder.EncodePair | pimsf.c:131-161 | two fields sharing one parity bit: both fields' greedy bits go into their slots, and the parity bit counts the ones of both |
| Encoder.WriteParity | pimsf.c:128-129 | the B bit of the parity slot is set exactly when the running count is even; nothing else changes |
| Encoder.EncodeYear | pimsf.c:114-129 | year minus 2000 from weight 80 into slots 17 to 24, parity into 54 B |
| Encoder.EncodeDate | pimsf.c:131-161 | month from weight 10 into 25 to 29 and day from weight 20 into 30 to 35; the count is not reset between them, so 55 B covers both |
| Encoder.EncodeWeekday | pimsf.c:163-179 | day of week from weight 4 into 36 to 38, parity into 56 B |
| Encoder.EncodeTime | pimsf.c:181-211 | hour from weight 20 into 39 to 44 and minute from weight 40 into 45 to 51; the count runs on over both into 57 B |
| Encoder.WriteFixedBits | pimsf.c:216-218 | A is set in slots 53 to 58 and every other bit is kept |
| Encoder.WrittenIsTimeCode | pimsf.c:107-218 | the encoder's stage-by-stage writes, from a zeroed frame, compose to `TimeCode(t)` |
| Bcd.GreedyWeigh | pimsf.c:117-126 | the weights of the bits the greedy loop sets, plus what is left in `temp`, add up to the starting value |
| Decoder.FieldDigits | pimsf.c:114-208 | for a minute in range, each field's tens slots hold the tens digit in binary, its units slots the units digit, and the field reads back as its value |
| Decoder.FieldWeighsBack | pimsf.c:114-208 | for a minute in range, summing the weights at a field's set slots gives its value and the greedy remainder `temp` ends at 0 |
| Decoder.GreedyOfRead | pimsf.c:114-208 | the other direction of the BCD round trip: bits that read as a two-digit value are the bits the encoder writes for it |
| Decoder.FixedBits | pimsf.c:216-218 | slots 0 to 16 are empty, B is clear in 17 to 53 and 59, A is set in 53 to 58 and clear in 52 and 59 (the 0111 1110 marker) |
| Decoder.DstBit | pimsf.c:213-214 | slot 58 B is set exactly when the encoded minute is in summer time |
| Decoder.TimeCodeParity | pimsf.c:128-211 | each parity group (17-24, 25-35, 36-38, 39-51) together with its parity bit holds an odd number of ones |
| Decoder.FrameParityBits | pimsf.c:116-211 | 54 B is set iff the year bits have even weight; 55 B counts month and day together; 56 B counts day of week; 57 B counts hour and minute together |
| Decoder.ParityIff | pimsf.c:128-211 | for any frame, odd parity over a group holds exactly when its parity bit is the one the encoder writes for that group's A bits |
| Decoder.DecodeTimeCode | pimsf.c:104-219 | a receiver decodes the frame for any minute of 2000 to 2099 back to that minute |
| Decoder.DecodedIsTimeCode | pimsf.c:104-219 | every frame that decodes to `t` is exactly the encoder's frame for `t`, and `t` is in range |
| Decoder.TimeCodeInjective | pimsf.c:104-219 | different minutes in range are sent as different frames |
| Keyer.Key | pimsf.c:221-273 | a code other than 0xff, 0x00, 0x01, 0x10 and 0x11 keys nothing |
| Keyer.KeyDataSteps | pimsf.c:234-272 | the four data codes key 100/900, 100/100/100/700, 200/800 and 300/700 ms, set first |
| Keyer.KeyDataSecond | pimsf.c:234-272 | every data code keys exactly 1000 ms, alternating set and clear, ending clear, whatever the offset |
| Keyer.KeyWaveform | pimsf.c:234-272 | at every instant of a data second, the pin is set in the first 100 ms, set in the second 100 ms iff A is 1, set in the third iff B is 1, and clear after |
| Keyer.ReadKeyedSecond | pimsf.c:234-272 | reading the pin at 150 ms and 250 ms recovers the slot's A and B bits |
| Keyer.KeyMarker | pimsf.c:225-232 | for an offset of at least -500 whose sleep `(500 + offset) * 1000` is below 2^32 us, the marker keys 500 ms set, then `500 + offset` ms clear, lasting `1000 + offset` ms; the program only passes offsets from -263 to -13 (`Scheduler.OffsetRange`) |
| Keyer.KeyMarkerWraps | pimsf.c:231 | for an offset from -1500 to -501, the negative product `(500 + offset) * 1000` is wrapped by the `unsigned long` parameter into a sleep of more than an hour; offsets in that range never occur in the program, whose offsets lie between -263 and -13 |
| Keyer.ULong | pimsf.c:56 | the conversion to `unsigned long` takes values below 2^32 and leaves those already in range unchanged |
| Keyer.LevelAtDuration | pimsf.c:221-273 | the pin level of a step list is defined exactly until its total sleep time has passed |
| Nsleep.Split | pimsf.c:56-60 | `tv_sec * 1000000 + tv_nsec / 1000 == period`, with `0 <= tv_nsec < 10^9` a whole number of microseconds |
| Nsleep.SplitUnique | pimsf.c:58-60 | the split is the only valid `timespec` for its period |
| Nsleep.SplitMicros | pimsf.c:58-60 | splitting a valid `timespec`'s own period gives it back |
| Scheduler.Iteration | pimsf.c:286-318 | one pass of the loop computes the decision `Decide` for its sample and the frame of the following minute: a wait as `WaitFor` gives it, or the sixty key calls for that frame |
| Scheduler.KeyFrame | pimsf.c:304-318 | encoding the following minute into a fresh frame array and dispatching it yields the calls `Calls(TimeCode(next), offset)`: the marker with the offset, then every slot of the encoder's frame in order |
| Scheduler.Dispatch | pimsf.c:313-318 | the dispatch loop yields the marker call with the offset, then one call per slot 1 to 59 with the slot's packed code and offset 0 |
| Scheduler.Pack | pimsf.c:317 | `(a << 4) + b` is one of 0x00, 0x01, 0x10, 0x11 and gives `a` and `b` back as its high and low hex digits |
| Scheduler.Misaligned | pimsf.c:295 | the alignment test sends the loop back to wait exactly when the sample is not within the first 250000 us of second 0 |
| Scheduler.DeltaAsWritten | pimsf.c:297 | `delta` as the program computes it, in a 32-bit `unsigned long`: below 2^32, the signed distance to the minute when that is in range, and 2^32 plus it when it is negative |
| Scheduler.WaitAsWritten | pimsf.c:297-300 | the sleep the program asks for, `delta - 3330` on the unsigned `delta`: any sleep lies below 2^32 us, and a sample already past the boundary by less than 2^32 - 3330 us still sleeps for 2^32 plus the negative distance, less 3330 |
| Scheduler.Offset | pimsf.c:308 | the offset is -13 less the whole milliseconds of `tv_usec`, truncated: `usec` lies within the millisecond `-13 - offset` |
| Scheduler.SleepFor | pimsf.c:299-300 | a sleep happens exactly when `delta` exceeds 3330 us, and then lasts `delta - 3330` |
| Scheduler.TransmitsIff | pimsf.c:295 | a pass transmits exactly when `tm_sec == 0` and `tv_usec <= 250000` |
| Scheduler.DeltaInRange | pimsf.c:297 | for seconds 0 to 59, `delta` is between 1 and 60000000 us and does not wrap |
| Scheduler.WaitTarget | pimsf.c:295-301 | a pass that does not transmit waits; a sleeping pass wakes exactly 3330 us before the next minute boundary; a pass that does not sleep is within 3330 us of it |
| Scheduler.WaitBounded | pimsf.c:297-300 | the wait never sleeps past the next minute boundary |
| Scheduler.LeapSecondWait | pimsf.c:297 | as written, a sample 1 us into a leap second makes the unsigned `delta` wrap to a sleep of more than 71 minutes |
| Scheduler.OffsetRange | pimsf.c:308 | on a transmitting pass the offset is between -263 ms and -13 ms, so the marker's second sleep is at least 237 ms |
| Scheduler.DispatchOrder | pimsf.c:313-318 | a transmitting pass makes exactly 60 key calls: the marker with the offset first, then slots 1 to 59 in ascending order, each with code `16 * a + b` in {0x00, 0x01, 0x10, 0x11} |
| Scheduler.ReceivedCalls | pimsf.c:313-318 | a receiver reading the sixty keyed seconds recovers every slot of the frame the calls were made for |
| Scheduler.TransmittedMinute | pimsf.c:305-318 | end to end: the seconds keyed on a transmitting pass decode as the minute after the sample |
| Scheduler.FrameTiming | pimsf.c:308-318 | a transmitted frame lasts `60 s + offset` ms; begun at `usec` into the minute, it ends 13 ms, less the sample's sub-millisecond part, before the next boundary |

## Left out

- `setup_gpio`, the register macros and the register writes of `clock_startstop` are hardware access. The pin is modelled only as the level each step sets.
- The `nanosleep` retry loop on `EINTR` is operating-system I/O. Sleeping appears only as the durations of the steps and the `timespec` split.
- `gettimeofday`, `localtime`, `asctime` and `strftime` are foreign calls. The sample's `tm_sec` and `tv_usec`, and the broken-down time of the following minute, are parameters of `Scheduler.Iteration`.
- The calendar is not checked: `Tm` is any record of fields, and the round-trip lemmas require the ranges `localtime` delivers for years 2000 to 2099.
- The year field is `tm_year - 100`, the year minus 2000, not the year modulo 100. The encoder is modelled that way, with no precondition. The round trip needs years 2000 to 2099.
- `tm_isdst` is modelled as a boolean, so slot 58 B is 0 or 1. The source copies the raw `int`, and a negative or larger value would not be a bit.
- C `int` overflow in `(500 + offset) * 1000` and in the alignment arithmetic is not modelled. The values in reach stay far inside 32 bits.
- Keyer.Key: the marker's second sleep is wrapped modulo 2^32 because `unsigned long` is 32 bits on the Raspberry Pi this targets. A 64-bit `unsigned long` is not modelled.
- The floating comparison `tv_usec / 1000.0 > 250` is modelled as the exact integer test `usec > 250000`. For integer microseconds the two agree.
- `printf` logging, the verbose flag, the SIGINT handler and `main`/`getopt` are console and process plumbing.
- The timing accuracy and drift of the real loop cannot be stated.
  - The model covers one pass of the endless loop and the nominal durations it asks for.
  - The resampling of the clock after a frame is only logging and is left out.
- Scheduler.Iteration allocates the frame array for each pass instead of reusing one declared before the loop. The array is rewritten in full before it is read on every transmitting pass, so nothing carries over.
- Scheduler.Iteration and Scheduler.Decide: a waiting pass is modelled with the signed distance to the minute (`WaitFor`), the corrected form described under Findings. `WaitAsWritten` keeps the source's unsigned `delta`. `Scheduler.DeltaInRange` proves the two agree for seconds 0 to 59.
- Where the source's behaviour and a plain description of the program differ, the model follows the source.
  - The keying offset is in milliseconds (`-13 - tv_usec / 1000`) and is slept as `(500 + offset) * 1000` microseconds.
  - Each second starts with `clock_startstop(1)`, named `PinSet` here. Whether a set pin gates the carrier off is a property of the hardware.

## Findings

| source | as written | input that shows it | evidently intended | confidence | as-written member | corrected member |
|---|---|---|---|---|---|---|
| pimsf.c:297 | `delta` is `60000000 - (tm_sec * 1000000 + tv_usec)` stored in an `unsigned long`; during a leap second (`tm_sec == 60`) the difference is negative and wraps | `tm_sec = 60`, `tv_usec = 1`: `delta = 2^32 - 1`, so the loop sleeps 4294963965 us, about 71.6 minutes, missing every frame in that time | a negative distance means the minute boundary has already passed: no sleep, and the loop samples again | low, not executed (only a time zone with leap seconds makes `localtime` return second 60) | Scheduler.LeapSecondWait | Scheduler.WaitBounded |
