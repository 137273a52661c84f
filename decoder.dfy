// A receiver's view of the frame: the BCD fields read back digit by digit, the
// odd-parity checks, the 0111 1110 minute marker in the A bits of slots 52 to
// 59, and the proof that decoding inverts encode_timecode.

module Decoder {
  import opened MsfFrame
  import Bcd

  /** The A bits of slots `lo` to `hi - 1`. */
  function ABits(code: seq<Slot>, lo: nat, hi: nat): (r: seq<Bit>)
    requires lo <= hi <= |code|
    ensures |r| == hi - lo
  {
    seq<Bit>(hi - lo, k requires 0 <= k < hi - lo => code[lo + k].a)
  }

  /** The A bits of a field's slots. */
  function FieldSlots(code: seq<Slot>, f: Field): (r: seq<Bit>)
    requires |code| == SlotCount
    ensures |r| == Width(f)
  {
    ABits(code, FirstSlot(f), FirstSlot(f) + Width(f))
  }

  /** How many of a field's slots carry its tens digit (weights 80, 40, 20, 10);
      the rest carry the units digit (weights 8, 4, 2, 1). */
  function TensWidth(f: Field): nat
  {
    if WeightIndex(f) >= 4 then 0 else 4 - WeightIndex(f)
  }

  function UnitsWidth(f: Field): (n: nat)
    ensures TensWidth(f) + n == Width(f) && n <= 4
  {
    Width(f) - TensWidth(f)
  }

  /** The weights of a tens digit in `tw` places followed by a units digit in `uw`
      places: ten times the binary weights, then the binary weights. */
  function DigitWeights(tw: nat, uw: nat): (ws: seq<int>)
    ensures |ws| == tw + uw
  {
    Bcd.Scale10(Bcd.Pow2Weights(tw)) + Bcd.Pow2Weights(uw)
  }

  /** A decimal digit sent in `|bits|` binary places, most significant first. */
  function Digit(bits: seq<Bit>): int
  {
    Bcd.Weigh(bits, Bcd.Pow2Weights(|bits|))
  }

  /** Two BCD digits, the tens in the first `tw` places; a digit above 9 is not BCD. */
  function ReadBcd(bits: seq<Bit>, tw: nat): Option<int>
    requires tw <= |bits|
  {
    var tens, units := Digit(bits[..tw]), Digit(bits[tw..]);
    if tens <= 9 && units <= 9 then Some(10 * tens + units) else None
  }

  function DecodeField(code: seq<Slot>, f: Field): Option<int>
    requires |code| == SlotCount
  {
    ReadBcd(FieldSlots(code, f), TensWidth(f))
  }

  /** The field bits as the receiver finds them. */
  function ReadFields(code: seq<Slot>): (fs: Fields)
    requires |code| == SlotCount
    ensures Sized(fs)
  {
    Fields(FieldSlots(code, Year), FieldSlots(code, Month), FieldSlots(code, Day),
           FieldSlots(code, Weekday), FieldSlots(code, Hour), FieldSlots(code, Minute))
  }

  /** The four parity groups. */
  datatype Group = YearGroup | DateGroup | WeekdayGroup | TimeGroup

  function ParitySlot(g: Group): nat
  {
    match g
    case YearGroup => 54
    case DateGroup => 55
    case WeekdayGroup => 56
    case TimeGroup => 57
  }

  /** The slots a group covers run from `GroupFirst(g)` to `GroupEnd(g) - 1`. */
  function GroupFirst(g: Group): nat
  {
    match g
    case YearGroup => 17
    case DateGroup => 25
    case WeekdayGroup => 36
    case TimeGroup => 39
  }

  function GroupEnd(g: Group): nat
  {
    match g
    case YearGroup => 25
    case DateGroup => 36
    case WeekdayGroup => 39
    case TimeGroup => 52
  }

  /** Odd parity: a group's A bits and its parity bit hold an odd number of ones. */
  predicate ParityHolds(code: seq<Slot>, g: Group)
    requires |code| == SlotCount
  {
    (Ones(ABits(code, GroupFirst(g), GroupEnd(g))) + code[ParitySlot(g)].b) % 2 == 1
  }

  predicate ParityOk(code: seq<Slot>)
    requires |code| == SlotCount
  {
    ParityHolds(code, YearGroup) && ParityHolds(code, DateGroup) &&
    ParityHolds(code, WeekdayGroup) && ParityHolds(code, TimeGroup)
  }

  /** The A bits of slots 52 to 59: the minute identifier 0111 1110. */
  const MarkerBits: seq<Bit> := [0, 1, 1, 1, 1, 1, 1, 0]

  /** Everything outside the fields, the parity bits and summer time is fixed:
      slots 0 to 16 are empty, the B bits carry nothing outside slots 54 to 58 and
      slots 52 to 59 carry the marker. */
  predicate ShapeOk(code: seq<Slot>)
    requires |code| == SlotCount
  {
    (forall i :: 0 <= i < 17 ==> code[i] == Blank) &&
    (forall i :: 17 <= i < 54 ==> code[i].b == 0) &&
    code[59].b == 0 &&
    ABits(code, 52, 60) == MarkerBits
  }

  /** The minute named by six field readings and the summer-time bit, if every
      field is BCD and the date and time are in range. */
  function Assemble(y: Option<int>, m: Option<int>, d: Option<int>, w: Option<int>,
                    h: Option<int>, mi: Option<int>, dst: bool): Option<Tm>
  {
    if y.None? || m.None? || d.None? || w.None? || h.None? || mi.None? then None
    else
      var t := Tm(2000 + y.value, m.value - 1, d.value, w.value, h.value, mi.value, dst);
      if InDomain(t) then Some(t) else None
  }

  /** The minute a frame announces, if the frame is well formed. */
  function Decode(code: seq<Slot>): Option<Tm>
    requires |code| == SlotCount
  {
    if !(ShapeOk(code) && ParityOk(code)) then None
    else Assemble(DecodeField(code, Year), DecodeField(code, Month), DecodeField(code, Day),
                  DecodeField(code, Weekday), DecodeField(code, Hour), DecodeField(code, Minute),
                  code[58].b == 1)
  }

  // ---- BCD on the bits of one field ----

  lemma Pow2WeightsPositive(n: nat)
    ensures forall i :: 0 <= i < n ==> Bcd.Pow2Weights(n)[i] >= 1
  {
    if n > 0 {
      Pow2WeightsPositive(n - 1);
      assert Bcd.Pow2Weights(n) == [Bcd.Pow2(n - 1)] + Bcd.Pow2Weights(n - 1);
    }
  }

  /** The binary weights of up to four places. */
  lemma Pow2Table()
    ensures Bcd.Pow2Weights(0) == [] && Bcd.Pow2Weights(1) == [1] && Bcd.Pow2Weights(2) == [2, 1]
    ensures Bcd.Pow2Weights(3) == [4, 2, 1] && Bcd.Pow2Weights(4) == [8, 4, 2, 1]
  {
    assert Bcd.Pow2Weights(1) == [1] + [];
    assert Bcd.Pow2Weights(2) == [2] + [1];
    assert Bcd.Pow2Weights(3) == [4] + [2, 1];
    assert Bcd.Pow2Weights(4) == [8] + [4, 2, 1];
  }

  /** The tens weights of up to four places. */
  lemma Scale10Table()
    ensures Bcd.Scale10([]) == [] && Bcd.Scale10([1]) == [10] && Bcd.Scale10([2, 1]) == [20, 10]
    ensures Bcd.Scale10([4, 2, 1]) == [40, 20, 10] && Bcd.Scale10([8, 4, 2, 1]) == [80, 40, 20, 10]
  {
    assert Bcd.Scale10([1]) == [10] + Bcd.Scale10([]);
    assert [2, 1][1..] == [1] && [4, 2, 1][1..] == [2, 1] && [8, 4, 2, 1][1..] == [4, 2, 1];
    assert Bcd.Scale10([2, 1]) == [20] + Bcd.Scale10([1]);
    assert Bcd.Scale10([4, 2, 1]) == [40] + Bcd.Scale10([2, 1]);
    assert Bcd.Scale10([8, 4, 2, 1]) == [80] + Bcd.Scale10([4, 2, 1]);
  }

  /** The tails of the weight table the fields start from. */
  lemma WeightTails()
    ensures BcdWeights[0..] == [80, 40, 20, 10] + [8, 4, 2, 1]
    ensures BcdWeights[1..] == [40, 20, 10] + [8, 4, 2, 1]
    ensures BcdWeights[2..] == [20, 10] + [8, 4, 2, 1]
    ensures BcdWeights[3..] == [10] + [8, 4, 2, 1]
    ensures BcdWeights[5..] == [] + [4, 2, 1]
  {
  }

  /** A field's weights are its tens weights (ten times a binary digit) followed by
      its units weights (a binary digit). */
  lemma FieldWeightsSplit(f: Field)
    ensures FieldWeights(f) ==
      DigitWeights(TensWidth(f), UnitsWidth(f))
  {
    Pow2Table();
    Scale10Table();
    WeightTails();
    var tw, uw := TensWidth(f), UnitsWidth(f);
    match f
    case Year => assert tw == 4 && uw == 4 && FieldWeights(f) == BcdWeights[0..];
    case Month => assert tw == 1 && uw == 4 && FieldWeights(f) == BcdWeights[3..];
    case Day => assert tw == 2 && uw == 4 && FieldWeights(f) == BcdWeights[2..];
    case Weekday => assert tw == 0 && uw == 3 && FieldWeights(f) == BcdWeights[5..];
    case Hour => assert tw == 2 && uw == 4 && FieldWeights(f) == BcdWeights[2..];
    case Minute => assert tw == 3 && uw == 4 && FieldWeights(f) == BcdWeights[1..];
  }

  /** Two decimal digits in binary: the greedy loop over the tens weights (ten
      times a binary digit of `tw` places) followed by the units weights (a binary
      digit of `uw` places) writes `d` and then `u`, and leaves nothing when both fit. */
  lemma DigitPairSplit(tw: nat, uw: nat, v: int, d: int, u: int)
    requires v == 10 * d + u
    requires 0 <= d < Bcd.Pow2(tw)
    requires 0 <= u < 10 && u < Bcd.Pow2(uw)
    ensures GreedyBits(v, DigitWeights(tw, uw)) ==
      GreedyBits(d, Bcd.Pow2Weights(tw)) + GreedyBits(u, Bcd.Pow2Weights(uw))
    ensures GreedyRemainder(v, DigitWeights(tw, uw)) == 0
  {
    var tws, uws := Bcd.Pow2Weights(tw), Bcd.Pow2Weights(uw);
    Bcd.GreedyAppend(v, Bcd.Scale10(tws), uws);
    Pow2WeightsPositive(tw);
    Bcd.GreedyScale(d, u, tws);
    Bcd.GreedyBinary(d, tw);
    Bcd.GreedyBinary(u, uw);
  }

  /** The greedy loop over a field's weights writes the tens digit `d` in binary
      and then the units digit `u` in binary, and leaves nothing when both fit. */
  lemma FieldSplit(f: Field, v: int, d: int, u: int)
    requires v == 10 * d + u
    requires 0 <= d < Bcd.Pow2(TensWidth(f))
    requires 0 <= u < 10 && u < Bcd.Pow2(UnitsWidth(f))
    ensures GreedyBits(v, FieldWeights(f)) ==
      GreedyBits(d, Bcd.Pow2Weights(TensWidth(f))) +
      GreedyBits(u, Bcd.Pow2Weights(UnitsWidth(f)))
    ensures GreedyRemainder(v, FieldWeights(f)) == 0
  {
    FieldWeightsSplit(f);
    DigitPairSplit(TensWidth(f), UnitsWidth(f), v, d, u);
  }

  /** The date and time ranges keep every digit within its slots. */
  lemma DigitsFit(t: Tm, f: Field)
    requires InDomain(t)
    ensures 0 <= FieldValue(t, f) < 100
    ensures FieldValue(t, f) / 10 < Bcd.Pow2(TensWidth(f))
    ensures FieldValue(t, f) % 10 < Bcd.Pow2(UnitsWidth(f))
  {
    assert Bcd.Pow2(4) == 16 && Bcd.Pow2(3) == 8;
  }

  /** Reading a tens part followed by a units part. */
  lemma ReadConcat(tb: seq<Bit>, ub: seq<Bit>)
    ensures (tb + ub)[..|tb|] == tb && (tb + ub)[|tb|..] == ub
    ensures ReadBcd(tb + ub, |tb|) ==
      if Digit(tb) <= 9 && Digit(ub) <= 9 then Some(10 * Digit(tb) + Digit(ub)) else None
  {
    assert (tb + ub)[..|tb|] == tb;
    assert (tb + ub)[|tb|..] == ub;
  }

  /** The greedy bits of `10 * d + u` over `tw` tens and `uw` units weights read
      back as the digits `d` and `u`. */
  lemma ReadDigits(tw: nat, uw: nat, v: int, d: int, u: int)
    requires v == 10 * d + u
    requires 0 <= d <= 9 && d < Bcd.Pow2(tw)
    requires 0 <= u <= 9 && u < Bcd.Pow2(uw)
    ensures Digit(GreedyBits(v, DigitWeights(tw, uw))[..tw]) == d
    ensures Digit(GreedyBits(v, DigitWeights(tw, uw))[tw..]) == u
    ensures ReadBcd(GreedyBits(v, DigitWeights(tw, uw)), tw) == Some(v)
  {
    DigitPairSplit(tw, uw, v, d, u);
    var tb, ub := GreedyBits(d, Bcd.Pow2Weights(tw)), GreedyBits(u, Bcd.Pow2Weights(uw));
    assert |tb| == tw;
    Bcd.GreedyBinary(d, tw);
    Bcd.GreedyBinary(u, uw);
    assert Digit(tb) == d && Digit(ub) == u;
    ReadConcat(tb, ub);
    var bits := GreedyBits(v, DigitWeights(tw, uw));
    assert bits == tb + ub;
    assert bits[..tw] == tb && bits[tw..] == ub;
  }

  /** The greedy bits of `10 * d + u` read back as the digits `d` and `u`. */
  lemma ReadGreedy(f: Field, v: int, d: int, u: int)
    requires v == 10 * d + u
    requires 0 <= d <= 9 && d < Bcd.Pow2(TensWidth(f))
    requires 0 <= u <= 9 && u < Bcd.Pow2(UnitsWidth(f))
    ensures Digit(GreedyBits(v, FieldWeights(f))[..TensWidth(f)]) == d
    ensures Digit(GreedyBits(v, FieldWeights(f))[TensWidth(f)..]) == u
    ensures ReadBcd(GreedyBits(v, FieldWeights(f)), TensWidth(f)) == Some(v)
  {
    FieldWeightsSplit(f);
    ReadDigits(TensWidth(f), UnitsWidth(f), v, d, u);
  }

  /** BCD round trip: each field's tens slots hold the tens digit of its value in
      binary and its units slots the units digit, so a receiver reads the value
      back. */
  lemma FieldDigits(t: Tm, f: Field)
    requires InDomain(t)
    ensures Digit(FieldBits(t, f)[..TensWidth(f)]) == FieldValue(t, f) / 10
    ensures Digit(FieldBits(t, f)[TensWidth(f)..]) == FieldValue(t, f) % 10
    ensures ReadBcd(FieldBits(t, f), TensWidth(f)) == Some(FieldValue(t, f))
  {
    var v := FieldValue(t, f);
    DigitsFit(t, f);
    assert v == 10 * (v / 10) + v % 10;
    ReadGreedy(f, v, v / 10, v % 10);
  }

  /** Summing the weights of a field's set slots gives its value back, and the
      greedy loop leaves nothing over. */
  lemma FieldWeighsBack(t: Tm, f: Field)
    requires InDomain(t)
    ensures Bcd.Weigh(FieldBits(t, f), FieldWeights(f)) == FieldValue(t, f)
    ensures GreedyRemainder(FieldValue(t, f), FieldWeights(f)) == 0
  {
    var v := FieldValue(t, f);
    DigitsFit(t, f);
    assert v == 10 * (v / 10) + v % 10;
    FieldSplit(f, v, v / 10, v % 10);
    Bcd.GreedyWeigh(v, FieldWeights(f));
  }

  /** A BCD reading is its two digits, each at most 9. */
  lemma ReadBcdParts(bits: seq<Bit>, tw: nat, v: int)
    requires tw <= |bits| && ReadBcd(bits, tw) == Some(v)
    ensures Digit(bits[..tw]) <= 9 && Digit(bits[tw..]) <= 9
    ensures v == 10 * Digit(bits[..tw]) + Digit(bits[tw..])
  {
  }

  /** A digit read from `n` places is a binary number of `n` places, and those
      places are its greedy bits. */
  lemma DigitPlaces(bits: seq<Bit>, n: nat)
    requires |bits| == n
    ensures 0 <= Digit(bits) < Bcd.Pow2(n)
    ensures GreedyBits(Digit(bits), Bcd.Pow2Weights(n)) == bits
  {
    Bcd.WeighBinaryBound(bits, n);
    Bcd.GreedyOfWeigh(bits, n);
  }

  /** Two digits read from `tw` tens places and `uw` units places are the bits
      the greedy loop writes for their value over the tens and units weights. */
  lemma GreedyOfDigits(tw: nat, uw: nat, bits: seq<Bit>, v: int)
    requires tw <= |bits| && |bits| == tw + uw
    requires ReadBcd(bits, tw) == Some(v)
    ensures 0 <= v < 100
    ensures bits == GreedyBits(v, DigitWeights(tw, uw))
  {
    var tb, ub := bits[..tw], bits[tw..];
    ReadBcdParts(bits, tw, v);
    DigitPlaces(tb, tw);
    DigitPlaces(ub, uw);
    DigitPairSplit(tw, uw, v, Digit(tb), Digit(ub));
    assert bits == tb + ub;
  }

  /** The bits of a field that reads as `v` are the bits the encoder writes for `v`. */
  lemma GreedyOfRead(f: Field, bits: seq<Bit>, v: int)
    requires |bits| == Width(f)
    requires ReadBcd(bits, TensWidth(f)) == Some(v)
    ensures 0 <= v < 100
    ensures bits == GreedyBits(v, FieldWeights(f))
  {
    FieldWeightsSplit(f);
    GreedyOfDigits(TensWidth(f), UnitsWidth(f), bits, v);
  }

  // ---- The layout, for any field bits ----

  lemma ABitsSplit(code: seq<Slot>, lo: nat, mid: nat, hi: nat)
    requires lo <= mid <= hi <= |code|
    ensures ABits(code, lo, hi) == ABits(code, lo, mid) + ABits(code, mid, hi)
  {
    assert forall k :: 0 <= k < hi - lo ==>
      ABits(code, lo, hi)[k] == (ABits(code, lo, mid) + ABits(code, mid, hi))[k];
  }

  /** Each field's slots of a frame carry that field's bits. */
  lemma FrameFields(fs: Fields, dst: Bit, f: Field)
    requires Sized(fs)
    ensures FieldSlots(Frame(fs, dst), f) == FieldOf(fs, f)
  {
    var r := FieldSlots(Frame(fs, dst), f);
    forall k | 0 <= k < Width(f)
      ensures r[k] == FieldOf(fs, f)[k]
    {
      assert r[k] == SlotA(fs, FirstSlot(f) + k);
    }
  }

  /** A frame reads back as the field bits it was laid out from. */
  lemma ReadFrame(fs: Fields, dst: Bit)
    requires Sized(fs)
    ensures ReadFields(Frame(fs, dst)) == fs
  {
    FrameFields(fs, dst, Year);
    FrameFields(fs, dst, Month);
    FrameFields(fs, dst, Day);
    FrameFields(fs, dst, Weekday);
    FrameFields(fs, dst, Hour);
    FrameFields(fs, dst, Minute);
  }

  /** The set A bits a group covers, counted in a frame, are the count its parity
      slot is computed from: slot 55 counts month and day together, slot 57 hour
      and minute. */
  lemma GroupOnes(code: seq<Slot>, g: Group)
    requires |code| == SlotCount
    ensures Ones(ABits(code, GroupFirst(g), GroupEnd(g))) == GroupCount(ReadFields(code), ParitySlot(g))
  {
    match g
    case YearGroup =>
    case DateGroup =>
      ABitsSplit(code, 25, 30, 36);
      Bcd.OnesAppend(FieldSlots(code, Month), FieldSlots(code, Day));
    case WeekdayGroup =>
    case TimeGroup =>
      ABitsSplit(code, 39, 45, 52);
      Bcd.OnesAppend(FieldSlots(code, Hour), FieldSlots(code, Minute));
  }

  /** Odd parity is the only choice of parity bit: it holds exactly when the bit
      is set for an even count. */
  lemma ParityChoice(ones: int, b: Bit)
    ensures (ones + b) % 2 == 1 <==> b == ParityBit(ones)
  {
  }

  /** A group's parity holds exactly when its parity bit is the one the encoder
      computes from the group's field bits. */
  lemma ParityIff(code: seq<Slot>, g: Group)
    requires |code| == SlotCount
    ensures ParityHolds(code, g) <==> code[ParitySlot(g)].b == ParityBit(GroupCount(ReadFields(code), ParitySlot(g)))
  {
    GroupOnes(code, g);
    ParityChoice(GroupCount(ReadFields(code), ParitySlot(g)), code[ParitySlot(g)].b);
  }

  /** Every group of a frame has odd parity. */
  lemma FrameParity(fs: Fields, dst: Bit, g: Group)
    requires Sized(fs)
    ensures ParityHolds(Frame(fs, dst), g)
  {
    ReadFrame(fs, dst);
    ParityIff(Frame(fs, dst), g);
  }

  /** A frame has the fixed shape, odd parity in every group and its summer-time
      bit in slot 58 B. */
  lemma FrameShape(fs: Fields, dst: Bit)
    requires Sized(fs)
    ensures ShapeOk(Frame(fs, dst)) && ParityOk(Frame(fs, dst))
    ensures forall i :: 53 <= i <= 58 ==> Frame(fs, dst)[i].a == 1
    ensures Frame(fs, dst)[52].a == 0 && Frame(fs, dst)[59].a == 0
    ensures Frame(fs, dst)[58].b == dst
  {
    var c := Frame(fs, dst);
    assert ABits(c, 52, 60) == MarkerBits;
    FrameParity(fs, dst, YearGroup);
    FrameParity(fs, dst, DateGroup);
    FrameParity(fs, dst, WeekdayGroup);
    FrameParity(fs, dst, TimeGroup);
  }

  /** The A bit of a slot of a well-shaped frame is the one its layout puts there. */
  lemma ReadA(code: seq<Slot>, i: nat)
    requires |code| == SlotCount && ShapeOk(code) && i < SlotCount
    ensures code[i].a == SlotA(ReadFields(code), i)
  {
    if i < 17 {
      assert code[i] == Blank;
    } else if i < 25 {
      assert code[i].a == FieldSlots(code, Year)[i - 17];
    } else if i < 30 {
      assert code[i].a == FieldSlots(code, Month)[i - 25];
    } else if i < 36 {
      assert code[i].a == FieldSlots(code, Day)[i - 30];
    } else if i < 39 {
      assert code[i].a == FieldSlots(code, Weekday)[i - 36];
    } else if i < 45 {
      assert code[i].a == FieldSlots(code, Hour)[i - 39];
    } else if i < 52 {
      assert code[i].a == FieldSlots(code, Minute)[i - 45];
    } else {
      assert code[i].a == ABits(code, 52, 60)[i - 52];
    }
  }

  /** The B bit of a slot of a well-shaped frame with odd parity is the one its
      layout puts there. */
  lemma ReadB(code: seq<Slot>, i: nat)
    requires |code| == SlotCount && ShapeOk(code) && ParityOk(code) && i < SlotCount
    ensures code[i].b == SlotB(ReadFields(code), code[58].b, i)
  {
    if i < 17 {
      assert code[i] == Blank;
    } else if i == 54 {
      ParityIff(code, YearGroup);
    } else if i == 55 {
      ParityIff(code, DateGroup);
    } else if i == 56 {
      ParityIff(code, WeekdayGroup);
    } else if i == 57 {
      ParityIff(code, TimeGroup);
    }
  }

  /** Every well-shaped frame with odd parity is laid out from the field bits it
      carries and its summer-time bit. */
  lemma FrameOfRead(code: seq<Slot>)
    requires |code| == SlotCount && ShapeOk(code) && ParityOk(code)
    ensures code == Frame(ReadFields(code), code[58].b)
  {
    forall i | 0 <= i < SlotCount
      ensures code[i] == Frame(ReadFields(code), code[58].b)[i]
    {
      ReadA(code, i);
      ReadB(code, i);
    }
  }

  // ---- The frame for a minute ----

  /** The fixed bits of every frame the transmitter sends: slots 0 to 16 empty, A
      set in slots 53 to 58 and clear in 52 and 59, B clear outside 54 to 58. */
  lemma FixedBits(t: Tm)
    ensures ShapeOk(TimeCode(t))
    ensures forall i :: 53 <= i <= 58 ==> TimeCode(t)[i].a == 1
    ensures TimeCode(t)[52].a == 0 && TimeCode(t)[59].a == 0
  {
    FrameShape(FieldsOf(t), DstOf(t));
  }

  /** Slot 58 B carries summer time. */
  lemma DstBit(t: Tm)
    ensures TimeCode(t)[58].b == 1 <==> t.isdst
  {
    FrameShape(FieldsOf(t), DstOf(t));
  }

  /** The parity bits of a frame are computed from its field bits. */
  lemma FrameParityBits(fs: Fields, dst: Bit)
    requires Sized(fs)
    ensures Frame(fs, dst)[54].b == ParityBit(Ones(fs.year))
    ensures Frame(fs, dst)[55].b == ParityBit(Ones(fs.month) + Ones(fs.day))
    ensures Frame(fs, dst)[56].b == ParityBit(Ones(fs.weekday))
    ensures Frame(fs, dst)[57].b == ParityBit(Ones(fs.hour) + Ones(fs.minute))
  {
  }

  /** Odd parity over each group of the frame for `t`: the ones among each
      group's A bits and its parity B bit add up to an odd number.  Slot 55
      covers month and day together, slot 57 hour and minute together. */
  lemma TimeCodeParity(t: Tm)
    ensures ParityOk(TimeCode(t))
  {
    FrameParityOk(FieldsOf(t), DstOf(t));
  }

  lemma FrameParityOk(fs: Fields, dst: Bit)
    requires Sized(fs)
    ensures ParityOk(Frame(fs, dst))
  {
    FrameShape(fs, dst);
  }

  /** Each field of the frame for `t` reads back as its value. */
  lemma DecodeFieldOfTimeCode(t: Tm, f: Field)
    requires InDomain(t)
    ensures DecodeField(TimeCode(t), f) == Some(FieldValue(t, f))
  {
    FrameFields(FieldsOf(t), DstOf(t), f);
    assert FieldOf(FieldsOf(t), f) == FieldBits(t, f);
    FieldDigits(t, f);
  }

  // ---- Decoding inverts encoding ----

  lemma DecodeAssembles(code: seq<Slot>)
    requires |code| == SlotCount
    requires ShapeOk(code) && ParityOk(code)
    ensures Decode(code) ==
      Assemble(DecodeField(code, Year), DecodeField(code, Month), DecodeField(code, Day),
               DecodeField(code, Weekday), DecodeField(code, Hour), DecodeField(code, Minute),
               code[58].b == 1)
  {
  }

  /** Assembling the field values of a minute in range gives the minute back. */
  lemma AssembleFields(t: Tm)
    requires InDomain(t)
    ensures Assemble(Some(FieldValue(t, Year)), Some(FieldValue(t, Month)),
                     Some(FieldValue(t, Day)), Some(FieldValue(t, Weekday)),
                     Some(FieldValue(t, Hour)), Some(FieldValue(t, Minute)), t.isdst) == Some(t)
  {
  }

  /** Assembling a minute gives back each field reading and the summer-time bit. */
  lemma AssembledFields(y: Option<int>, m: Option<int>, d: Option<int>, w: Option<int>,
                        h: Option<int>, mi: Option<int>, dst: bool, t: Tm)
    requires Assemble(y, m, d, w, h, mi, dst) == Some(t)
    ensures InDomain(t) && dst == t.isdst
    ensures y == Some(FieldValue(t, Year)) && m == Some(FieldValue(t, Month))
    ensures d == Some(FieldValue(t, Day)) && w == Some(FieldValue(t, Weekday))
    ensures h == Some(FieldValue(t, Hour)) && mi == Some(FieldValue(t, Minute))
  {
  }

  /** A receiver reads back the minute the frame was built for. */
  lemma DecodeTimeCode(t: Tm)
    requires InDomain(t)
    ensures Decode(TimeCode(t)) == Some(t)
  {
    var c := TimeCode(t);
    FrameShape(FieldsOf(t), DstOf(t));
    DecodeFieldOfTimeCode(t, Year);
    DecodeFieldOfTimeCode(t, Month);
    DecodeFieldOfTimeCode(t, Day);
    DecodeFieldOfTimeCode(t, Weekday);
    DecodeFieldOfTimeCode(t, Hour);
    DecodeFieldOfTimeCode(t, Minute);
    DecodeAssembles(c);
    AssembleFields(t);
  }

  /** What the receiver checked, for a frame it reads as `t`. */
  lemma DecodeParts(code: seq<Slot>, t: Tm)
    requires |code| == SlotCount
    requires Decode(code) == Some(t)
    ensures InDomain(t) && ShapeOk(code) && ParityOk(code)
    ensures DecodeField(code, Year) == Some(FieldValue(t, Year))
    ensures DecodeField(code, Month) == Some(FieldValue(t, Month))
    ensures DecodeField(code, Day) == Some(FieldValue(t, Day))
    ensures DecodeField(code, Weekday) == Some(FieldValue(t, Weekday))
    ensures DecodeField(code, Hour) == Some(FieldValue(t, Hour))
    ensures DecodeField(code, Minute) == Some(FieldValue(t, Minute))
    ensures code[58].b == 1 <==> t.isdst
  {
    assert ShapeOk(code) && ParityOk(code);
    DecodeAssembles(code);
    AssembledFields(DecodeField(code, Year), DecodeField(code, Month), DecodeField(code, Day),
                    DecodeField(code, Weekday), DecodeField(code, Hour), DecodeField(code, Minute),
                    code[58].b == 1, t);
  }

  /** A field the receiver reads as its value in `t` carries the field's bits. */
  lemma FieldOfCode(code: seq<Slot>, t: Tm, f: Field)
    requires |code| == SlotCount
    requires DecodeField(code, f) == Some(FieldValue(t, f))
    ensures FieldSlots(code, f) == FieldBits(t, f)
  {
    GreedyOfRead(f, FieldSlots(code, f), FieldValue(t, f));
  }

  /** Only the frames the encoder builds decode: a frame that reads as `t` is the
      frame for `t`, and `t` lies in the encodable range. */
  lemma DecodedIsTimeCode(code: seq<Slot>, t: Tm)
    requires |code| == SlotCount
    requires Decode(code) == Some(t)
    ensures InDomain(t)
    ensures code == TimeCode(t)
  {
    DecodeParts(code, t);
    FieldOfCode(code, t, Year);
    FieldOfCode(code, t, Month);
    FieldOfCode(code, t, Day);
    FieldOfCode(code, t, Weekday);
    FieldOfCode(code, t, Hour);
    FieldOfCode(code, t, Minute);
    assert ReadFields(code) == FieldsOf(t);
    assert code[58].b == DstOf(t);
    FrameOfRead(code);
  }

  /** Different minutes in range are sent as different frames. */
  lemma TimeCodeInjective(t1: Tm, t2: Tm)
    requires InDomain(t1) && InDomain(t2)
    requires TimeCode(t1) == TimeCode(t2)
    ensures t1 == t2
  {
    DecodeTimeCode(t1);
    DecodeTimeCode(t2);
  }
}
