// encode_timecode: fills the 60-slot frame array in place for the broken-down
// time of the following minute.

module Encoder {
  import opened MsfFrame
  import Bcd

  /** `s` with the A bit set at slot `first + k` for every set `bits[k]`. */
  function MarkBits(s: seq<Slot>, first: nat, bits: seq<Bit>): (r: seq<Slot>)
    ensures |r| == |s|
  {
    seq(|s|, j requires 0 <= j < |s| =>
      if first <= j < first + |bits| && bits[j - first] == 1 then s[j].(a := 1) else s[j])
  }

  /** One more weight of the loop: the bit it writes and what is left after it. */
  lemma GreedyStep(value: int, bcd: seq<int>, bcdindex: nat, k: nat)
    requires bcdindex <= k < |bcd|
    ensures GreedyBits(value, bcd[bcdindex..k + 1]) == GreedyBits(value, bcd[bcdindex..k]) +
      [if GreedyRemainder(value, bcd[bcdindex..k]) >= bcd[k] then 1 else 0]
    ensures GreedyRemainder(value, bcd[bcdindex..k + 1]) ==
      var temp := GreedyRemainder(value, bcd[bcdindex..k]);
      if temp >= bcd[k] then temp - bcd[k] else temp
  {
    Bcd.GreedySnoc(value, bcd[bcdindex..k], bcd[k]);
    assert bcd[bcdindex..k + 1] == bcd[bcdindex..k] + [bcd[k]];
  }

  /** One of the encoder's field loops: walks slots `first`, `first + 1`, ... with
      the weights of `bcd` from `bcdindex` to the end, sets the A bit of every slot
      whose weight still fits in `temp` and counts those bits on top of `sum0`. */
  method EncodeField(msf: array<Slot>, bcd: seq<int>, first: nat, value: int, bcdindex: nat, sum0: int)
    returns (sum: int)
    requires bcdindex <= |bcd| && first + (|bcd| - bcdindex) <= msf.Length
    modifies msf
    ensures sum == sum0 + Ones(GreedyBits(value, bcd[bcdindex..]))
    ensures msf[..] == MarkBits(old(msf[..]), first, GreedyBits(value, bcd[bcdindex..]))
  {
    ghost var init := msf[..];
    ghost var done: seq<Bit> := [];
    var temp := value;
    var k := bcdindex;
    sum := sum0;
    for i := first to first + (|bcd| - bcdindex)
      invariant k == bcdindex + (i - first) && |done| == i - first
      invariant done == GreedyBits(value, bcd[bcdindex..k])
      invariant temp == GreedyRemainder(value, bcd[bcdindex..k])
      invariant sum == sum0 + Ones(done)
      invariant msf.Length == |init|
      invariant forall j :: 0 <= j < msf.Length ==>
        msf[j] == if first <= j < i && done[j - first] == 1 then init[j].(a := 1) else init[j]
    {
      ghost var bit: Bit := if temp >= bcd[k] then 1 else 0;
      GreedyStep(value, bcd, bcdindex, k);
      Bcd.OnesAppend(done, [bit]);
      if temp >= bcd[k] {
        msf[i] := msf[i].(a := 1);
        sum := sum + 1;
        temp := temp - bcd[k];
      }
      done := done + [bit];
      k := k + 1;
    }
    assert bcd[bcdindex..k] == bcd[bcdindex..];
    assert msf[..] == MarkBits(init, first, done);
  }

  /** How far the encoder has got towards `Frame(fs, dst)`: the A bits of slots 17 up
      to `aUpTo` and the B bits of slots 54 up to `bUpTo` are those of the frame, and
      every other bit is still zero. */
  ghost predicate Progress(s: seq<Slot>, fs: Fields, dst: Bit, aUpTo: nat, bUpTo: nat)
    requires Sized(fs)
  {
    |s| == SlotCount &&
    (forall j :: 0 <= j < SlotCount ==> s[j].a == if 17 <= j < aUpTo then SlotA(fs, j) else 0) &&
    (forall j :: 0 <= j < SlotCount ==> s[j].b == if 54 <= j < bUpTo then SlotB(fs, dst, j) else 0)
  }

  /** Writing the next field's bits advances the A progress over that field. */
  lemma FieldStep(s: seq<Slot>, fs: Fields, dst: Bit, f: Field, bUpTo: nat)
    requires Sized(fs) && Progress(s, fs, dst, FirstSlot(f), bUpTo)
    ensures Progress(MarkBits(s, FirstSlot(f), FieldOf(fs, f)), fs, dst, FirstSlot(f) + Width(f), bUpTo)
  {
  }

  /** The encoder's parity write, `if (!(sum % 2)) msf[p].b = 1`. */
  function WithParity(s: seq<Slot>, p: nat, sum: int): (r: seq<Slot>)
    requires p < |s|
    ensures |r| == |s|
  {
    if sum % 2 == 0 then s[p := s[p].(b := 1)] else s
  }

  /** The parity write after a group: `if (!(sum % 2)) msf[p].b = 1`. */
  method WriteParity(msf: array<Slot>, p: nat, sum: int)
    requires p < msf.Length
    modifies msf
    ensures msf[..] == WithParity(old(msf[..]), p, sum)
  {
    if sum % 2 == 0 {
      msf[p] := msf[p].(b := 1);
    }
  }

  /** A parity write with the group's count advances the B progress. */
  lemma ParityStep(s: seq<Slot>, fs: Fields, dst: Bit, aUpTo: nat, p: nat)
    requires Sized(fs) && Progress(s, fs, dst, aUpTo, p) && 54 <= p <= 57
    ensures Progress(WithParity(s, p, GroupCount(fs, p)), fs, dst, aUpTo, p + 1)
  {
  }

  /** Writing the summer-time bit completes the B bits. */
  lemma DstStep(s: seq<Slot>, fs: Fields, dst: Bit, aUpTo: nat)
    requires Sized(fs) && Progress(s, fs, dst, aUpTo, 58)
    ensures Progress(s[58 := s[58].(b := dst)], fs, dst, aUpTo, 59)
  {
  }

  /** `s` with the A bits of slots 53 to 58 set. */
  function WithFixedBits(s: seq<Slot>): (r: seq<Slot>)
    ensures |r| == |s|
  {
    seq(|s|, j requires 0 <= j < |s| => if 53 <= j <= 58 then s[j].(a := 1) else s[j])
  }

  /** The encoder's writes, group by group, as functions of the frame before them. */
  ghost function Zeroed(): seq<Slot>
  {
    seq(SlotCount, _ => Blank)
  }

  /** A field written into its slots, then its parity bit. */
  ghost function GroupStage(s: seq<Slot>, first: nat, bits: seq<Bit>, p: nat): seq<Slot>
    requires p < |s|
  {
    WithParity(MarkBits(s, first, bits), p, 0 + Ones(bits))
  }

  /** Two fields written into their slots, then the parity bit over both. */
  ghost function PairStage(s: seq<Slot>, first1: nat, bits1: seq<Bit>, first2: nat, bits2: seq<Bit>,
                           p: nat): seq<Slot>
    requires p < |s|
  {
    WithParity(MarkBits(MarkBits(s, first1, bits1), first2, bits2), p, 0 + Ones(bits1) + Ones(bits2))
  }

  ghost function YearStage(s: seq<Slot>, t: Tm): seq<Slot>
    requires |s| == SlotCount
  {
    GroupStage(s, 17, FieldBits(t, Year), 54)
  }

  ghost function DateStage(s: seq<Slot>, t: Tm): seq<Slot>
    requires |s| == SlotCount
  {
    PairStage(s, 25, FieldBits(t, Month), 30, FieldBits(t, Day), 55)
  }

  ghost function WeekdayStage(s: seq<Slot>, t: Tm): seq<Slot>
    requires |s| == SlotCount
  {
    GroupStage(s, 36, FieldBits(t, Weekday), 56)
  }

  ghost function TimeStage(s: seq<Slot>, t: Tm): seq<Slot>
    requires |s| == SlotCount
  {
    PairStage(s, 39, FieldBits(t, Hour), 45, FieldBits(t, Minute), 57)
  }

  ghost function DstStage(s: seq<Slot>, t: Tm): seq<Slot>
    requires |s| == SlotCount
  {
    s[58 := s[58].(b := DstOf(t))]
  }

  lemma YearProgress(s: seq<Slot>, t: Tm, fs: Fields, dst: Bit)
    requires Sized(fs) && Progress(s, fs, dst, 17, 54)
    requires fs.year == FieldBits(t, Year)
    ensures Progress(YearStage(s, t), fs, dst, 25, 55)
  {
    FieldStep(s, fs, dst, Year, 54);
    ParityStep(MarkBits(s, 17, fs.year), fs, dst, 25, 54);
  }

  lemma DateProgress(s: seq<Slot>, t: Tm, fs: Fields, dst: Bit)
    requires Sized(fs) && Progress(s, fs, dst, 25, 55)
    requires fs.month == FieldBits(t, Month)
    requires fs.day == FieldBits(t, Day)
    ensures Progress(DateStage(s, t), fs, dst, 36, 56)
  {
    var s1 := MarkBits(s, 25, fs.month);
    var s2 := MarkBits(s1, 30, fs.day);
    FieldStep(s, fs, dst, Month, 55);
    FieldStep(s1, fs, dst, Day, 55);
    ParityStep(s2, fs, dst, 36, 55);
    assert DateStage(s, t) == WithParity(s2, 55, GroupCount(fs, 55));
  }

  lemma WeekdayProgress(s: seq<Slot>, t: Tm, fs: Fields, dst: Bit)
    requires Sized(fs) && Progress(s, fs, dst, 36, 56)
    requires fs.weekday == FieldBits(t, Weekday)
    ensures Progress(WeekdayStage(s, t), fs, dst, 39, 57)
  {
    FieldStep(s, fs, dst, Weekday, 56);
    ParityStep(MarkBits(s, 36, fs.weekday), fs, dst, 39, 56);
  }

  lemma TimeProgress(s: seq<Slot>, t: Tm, fs: Fields, dst: Bit)
    requires Sized(fs) && Progress(s, fs, dst, 39, 57)
    requires fs.hour == FieldBits(t, Hour)
    requires fs.minute == FieldBits(t, Minute)
    ensures Progress(TimeStage(s, t), fs, dst, 52, 58)
  {
    var s1 := MarkBits(s, 39, fs.hour);
    var s2 := MarkBits(s1, 45, fs.minute);
    FieldStep(s, fs, dst, Hour, 57);
    FieldStep(s1, fs, dst, Minute, 57);
    ParityStep(s2, fs, dst, 52, 57);
    assert TimeStage(s, t) == WithParity(s2, 57, GroupCount(fs, 57));
  }

  /** Once every field, parity and summer-time bit is written, the fixed A bits
      complete the frame. */
  lemma Completed(s: seq<Slot>, fs: Fields, dst: Bit)
    requires Sized(fs) && Progress(s, fs, dst, 52, 59)
    ensures WithFixedBits(s) == Frame(fs, dst)
  {
    forall j | 0 <= j < SlotCount
      ensures WithFixedBits(s)[j] == Frame(fs, dst)[j]
    {
    }
  }

  /** The writes build exactly the frame for `t`. */
  lemma WrittenIsTimeCode(t: Tm)
    ensures WithFixedBits(DstStage(TimeStage(WeekdayStage(DateStage(YearStage(Zeroed(), t), t), t), t), t)) == TimeCode(t)
  {
    var fs, dst := FieldsOf(t), DstOf(t);
    var s := Zeroed();
    assert Progress(s, fs, dst, 17, 54);
    YearProgress(s, t, fs, dst);
    s := YearStage(s, t);
    DateProgress(s, t, fs, dst);
    s := DateStage(s, t);
    WeekdayProgress(s, t, fs, dst);
    s := WeekdayStage(s, t);
    TimeProgress(s, t, fs, dst);
    s := TimeStage(s, t);
    DstStep(s, fs, dst, 52);
    s := DstStage(s, t);
    Completed(s, fs, dst);
  }

  /** A field's bits are the greedy loop over the table from the field's index. */
  lemma LoopBits(t: Tm, f: Field)
    ensures FieldBits(t, f) == GreedyBits(FieldValue(t, f), BcdWeights[WeightIndex(f)..])
  {
  }

  /** A field on its own parity group: its greedy loop, then its parity bit. */
  method EncodeGroup(msf: array<Slot>, bcd: seq<int>, first: nat, value: int, bcdindex: nat, p: nat)
    requires bcdindex <= |bcd| && first + (|bcd| - bcdindex) <= msf.Length
    requires p < msf.Length
    modifies msf
    ensures msf[..] == GroupStage(old(msf[..]), first, GreedyBits(value, bcd[bcdindex..]), p)
  {
    var sum := EncodeField(msf, bcd, first, value, bcdindex, 0);
    WriteParity(msf, p, sum);
  }

  /** Year 17-24 and its parity bit 54. */
  method EncodeYear(msf: array<Slot>, t: Tm)
    requires msf.Length == SlotCount
    modifies msf
    ensures msf[..] == YearStage(old(msf[..]), t)
  {
    LoopBits(t, Year);
    EncodeGroup(msf, BcdWeights, 17, FieldValue(t, Year), WeightIndex(Year), 54);
  }

  /** Two fields on one parity group: the second loop counts on from the first,
      then the parity bit. */
  method EncodePair(msf: array<Slot>, bcd: seq<int>, first1: nat, value1: int, index1: nat,
                    first2: nat, value2: int, index2: nat, p: nat)
    requires index1 <= |bcd| && first1 + (|bcd| - index1) <= msf.Length
    requires index2 <= |bcd| && first2 + (|bcd| - index2) <= msf.Length
    requires p < msf.Length
    modifies msf
    ensures msf[..] == PairStage(old(msf[..]), first1, GreedyBits(value1, bcd[index1..]),
                                 first2, GreedyBits(value2, bcd[index2..]), p)
  {
    var sum := EncodeField(msf, bcd, first1, value1, index1, 0);
    sum := EncodeField(msf, bcd, first2, value2, index2, sum);
    WriteParity(msf, p, sum);
  }

  /** Month 25-29 and day of month 30-35; the count runs on over both into parity bit 55. */
  method EncodeDate(msf: array<Slot>, t: Tm)
    requires msf.Length == SlotCount
    modifies msf
    ensures msf[..] == DateStage(old(msf[..]), t)
  {
    LoopBits(t, Month);
    LoopBits(t, Day);
    EncodePair(msf, BcdWeights, 25, FieldValue(t, Month), WeightIndex(Month),
               30, FieldValue(t, Day), WeightIndex(Day), 55);
  }

  /** Day of week 36-38 and its parity bit 56. */
  method EncodeWeekday(msf: array<Slot>, t: Tm)
    requires msf.Length == SlotCount
    modifies msf
    ensures msf[..] == WeekdayStage(old(msf[..]), t)
  {
    LoopBits(t, Weekday);
    EncodeGroup(msf, BcdWeights, 36, FieldValue(t, Weekday), WeightIndex(Weekday), 56);
  }

  /** Hour 39-44 and minute 45-51; the count runs on over both into parity bit 57. */
  method EncodeTime(msf: array<Slot>, t: Tm)
    requires msf.Length == SlotCount
    modifies msf
    ensures msf[..] == TimeStage(old(msf[..]), t)
  {
    LoopBits(t, Hour);
    LoopBits(t, Minute);
    EncodePair(msf, BcdWeights, 39, FieldValue(t, Hour), WeightIndex(Hour),
               45, FieldValue(t, Minute), WeightIndex(Minute), 57);
  }

  /** The fixed marker bits: A is 1 in slots 53 to 58. */
  method WriteFixedBits(msf: array<Slot>)
    requires msf.Length == SlotCount
    modifies msf
    ensures msf[..] == WithFixedBits(old(msf[..]))
  {
    for i := 53 to 59
      invariant forall j :: 0 <= j < SlotCount ==> msf[j] == if 53 <= j < i then old(msf[j]).(a := 1) else old(msf[j])
    {
      msf[i] := msf[i].(a := 1);
    }
  }

  /** encode_timecode: zero the frame, write the six BCD fields with their parity
      bits, the summer-time bit and the fixed A bits of slots 53 to 58. */
  method EncodeTimecode(msf: array<Slot>, t: Tm)
    requires msf.Length == SlotCount
    modifies msf
    ensures msf[..] == TimeCode(t)
  {
    for i := 0 to SlotCount
      invariant forall j :: 0 <= j < i ==> msf[j] == Blank
    {
      msf[i] := Blank;
    }
    ghost var zeroed := msf[..];
    assert zeroed == Zeroed();

    EncodeYear(msf, t);
    ghost var year := msf[..];
    EncodeDate(msf, t);
    ghost var date := msf[..];
    EncodeWeekday(msf, t);
    ghost var wday := msf[..];
    EncodeTime(msf, t);
    ghost var time := msf[..];

    // the summer-time bit goes into slot 58 B
    msf[58] := msf[58].(b := if t.isdst then 1 else 0);
    ghost var dst := msf[..];
    assert dst == DstStage(time, t);

    // the marker's fixed ones: A in slots 53 to 58
    WriteFixedBits(msf);
    WrittenIsTimeCode(t);
  }
}
