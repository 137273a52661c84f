// The MSF 60 kHz time and date frame: sixty one-second slots, each carrying an
// A bit and a B bit, and the greedy BCD weighting the transmitter uses to fill
// the date and time fields.

module MsfFrame {

  datatype Option<T> = None | Some(value: T)

  /** A transmitted bit; `struct MSF` holds its two bits as C ints that are 0 or 1. */
  type Bit = x: int | 0 <= x <= 1

  /** One second of the frame: the A bit and the B bit. */
  datatype Slot = Slot(a: Bit, b: Bit)

  const SlotCount: nat := 60
  const Blank: Slot := Slot(0, 0)

  /** The broken-down local time of the minute being encoded (the minute AFTER the
      sample).  `year` is the calendar year, `mon0` counts months from 0 like
      `tm_mon`, `wday` counts days from Sunday = 0. */
  datatype Tm = Tm(year: int, mon0: int, mday: int, wday: int, hour: int, min: int, isdst: bool)

  /** The ranges the calendar conversion delivers, with years limited to the
      century the two-digit year field can name. */
  predicate InDomain(t: Tm)
  {
    2000 <= t.year <= 2099 && 0 <= t.mon0 <= 11 && 1 <= t.mday <= 31 &&
    0 <= t.wday <= 6 && 0 <= t.hour <= 23 && 0 <= t.min <= 59
  }

  /** The weight table of the encoder. */
  const BcdWeights: seq<int> := [80, 40, 20, 10, 8, 4, 2, 1]

  /** The six BCD fields of the frame. */
  datatype Field = Year | Month | Day | Weekday | Hour | Minute

  /** The first slot of a field. */
  function FirstSlot(f: Field): nat
  {
    match f
    case Year => 17
    case Month => 25
    case Day => 30
    case Weekday => 36
    case Hour => 39
    case Minute => 45
  }

  /** The index into the weight table at which a field starts. */
  function WeightIndex(f: Field): nat
  {
    match f
    case Year => 0
    case Month => 3
    case Day => 2
    case Weekday => 5
    case Hour => 2
    case Minute => 1
  }

  /** Every field runs from its starting weight to the end of the table. */
  function Width(f: Field): (n: nat)
    ensures 1 <= n <= 8
  {
    8 - WeightIndex(f)
  }

  /** The weights of a field's slots, in slot order. */
  function FieldWeights(f: Field): (ws: seq<int>)
    ensures |ws| == Width(f)
  {
    BcdWeights[WeightIndex(f)..]
  }

  /** The number a field encodes: year within the century, month from 1. */
  function FieldValue(t: Tm, f: Field): int
  {
    match f
    case Year => t.year - 2000
    case Month => t.mon0 + 1
    case Day => t.mday
    case Weekday => t.wday
    case Hour => t.hour
    case Minute => t.min
  }

  /** The A bits the greedy loop writes, one per weight, starting from `temp`:
      a weight that still fits in the remainder is set and subtracted. */
  function GreedyBits(temp: int, ws: seq<int>): (r: seq<Bit>)
    ensures |r| == |ws|
    decreases ws
  {
    if ws == [] then []
    else if temp >= ws[0] then [1] + GreedyBits(temp - ws[0], ws[1..])
    else [0] + GreedyBits(temp, ws[1..])
  }

  /** What is left of `temp` after the greedy loop. */
  function GreedyRemainder(temp: int, ws: seq<int>): int
    decreases ws
  {
    if ws == [] then temp
    else if temp >= ws[0] then GreedyRemainder(temp - ws[0], ws[1..])
    else GreedyRemainder(temp, ws[1..])
  }

  /** The bits of a field of `t`. */
  function FieldBits(t: Tm, f: Field): (r: seq<Bit>)
    ensures |r| == Width(f)
  {
    GreedyBits(FieldValue(t, f), FieldWeights(f))
  }

  /** Number of set bits. */
  function Ones(bits: seq<Bit>): (n: nat)
    ensures n <= |bits|
  {
    if bits == [] then 0 else bits[0] + Ones(bits[1..])
  }

  /** The B value of a parity slot: set when the counted ones are even. */
  function ParityBit(sum: int): Bit
  {
    if sum % 2 == 0 then 1 else 0
  }

  /** The A bits of the six fields, in slot order: year in slots 17 to 24, month
      in 25 to 29, day of month in 30 to 35, day of week in 36 to 38, hour in 39
      to 44, minute in 45 to 51. */
  datatype Fields = Fields(year: seq<Bit>, month: seq<Bit>, day: seq<Bit>,
                           weekday: seq<Bit>, hour: seq<Bit>, minute: seq<Bit>)

  function FieldOf(fs: Fields, f: Field): seq<Bit>
  {
    match f
    case Year => fs.year
    case Month => fs.month
    case Day => fs.day
    case Weekday => fs.weekday
    case Hour => fs.hour
    case Minute => fs.minute
  }

  /** Every field has as many bits as it has slots. */
  predicate Sized(fs: Fields)
  {
    |fs.year| == 8 && |fs.month| == 5 && |fs.day| == 6 &&
    |fs.weekday| == 3 && |fs.hour| == 6 && |fs.minute| == 7
  }

  /** The A bit of slot `i`: the field bits, then the 0111 1110 minute marker in
      slots 52 to 59; A is clear in slots 0 to 16. */
  function SlotA(fs: Fields, i: nat): Bit
    requires Sized(fs)
  {
    if 17 <= i <= 24 then fs.year[i - 17]
    else if 25 <= i <= 29 then fs.month[i - 25]
    else if 30 <= i <= 35 then fs.day[i - 30]
    else if 36 <= i <= 38 then fs.weekday[i - 36]
    else if 39 <= i <= 44 then fs.hour[i - 39]
    else if 45 <= i <= 51 then fs.minute[i - 45]
    else if 53 <= i <= 58 then 1
    else 0
  }

  /** The count of set field bits that parity slot `p` (54 to 57) covers: year;
      month and day; day of week; hour and minute. */
  function GroupCount(fs: Fields, p: nat): nat
  {
    if p == 54 then Ones(fs.year)
    else if p == 55 then Ones(fs.month) + Ones(fs.day)
    else if p == 56 then Ones(fs.weekday)
    else Ones(fs.hour) + Ones(fs.minute)
  }

  /** The B bit of slot `i`: four parity bits and summer time in slot 58. */
  function SlotB(fs: Fields, dst: Bit, i: nat): Bit
  {
    if 54 <= i <= 57 then ParityBit(GroupCount(fs, i))
    else if i == 58 then dst
    else 0
  }

  /** The sixty slots laid out from the field bits and the summer-time bit. */
  function Frame(fs: Fields, dst: Bit): (code: seq<Slot>)
    requires Sized(fs)
    ensures |code| == SlotCount
  {
    seq(SlotCount, i requires 0 <= i < SlotCount => Slot(SlotA(fs, i), SlotB(fs, dst, i)))
  }

  /** The field bits for `t`. */
  function FieldsOf(t: Tm): (fs: Fields)
    ensures Sized(fs)
  {
    Fields(FieldBits(t, Year), FieldBits(t, Month), FieldBits(t, Day),
           FieldBits(t, Weekday), FieldBits(t, Hour), FieldBits(t, Minute))
  }

  function DstOf(t: Tm): Bit
  {
    if t.isdst then 1 else 0
  }

  /** The frame the transmitter sends during the minute before `t`. */
  function TimeCode(t: Tm): (code: seq<Slot>)
    ensures |code| == SlotCount
  {
    Frame(FieldsOf(t), DstOf(t))
  }
}
