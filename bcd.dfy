// Facts about the greedy weighting: it splits over a concatenation of weight
// lists, it commutes with scaling every weight by ten (the tens digit), and on
// power-of-two weights it is exactly binary notation (a BCD digit).

module Bcd {
  import opened MsfFrame

  /** The sum of the weights whose bit is set. */
  function Weigh(bits: seq<Bit>, ws: seq<int>): int
    requires |bits| == |ws|
  {
    if bits == [] then 0 else bits[0] * ws[0] + Weigh(bits[1..], ws[1..])
  }

  /** The weights 2^(n-1), ..., 2, 1. */
  function Pow2Weights(n: nat): (ws: seq<int>)
    ensures |ws| == n
  {
    if n == 0 then [] else [Pow2(n - 1)] + Pow2Weights(n - 1)
  }

  function Pow2(n: nat): (p: int)
    ensures p >= 1
  {
    if n == 0 then 1 else 2 * Pow2(n - 1)
  }

  /** Every weight multiplied by ten. */
  function Scale10(ws: seq<int>): (r: seq<int>)
    ensures |r| == |ws|
  {
    if ws == [] then [] else [10 * ws[0]] + Scale10(ws[1..])
  }

  lemma {:induction false} OnesAppend(x: seq<Bit>, y: seq<Bit>)
    ensures Ones(x + y) == Ones(x) + Ones(y)
  {
    if x != [] {
      assert (x + y)[0] == x[0] && (x + y)[1..] == x[1..] + y;
      OnesAppend(x[1..], y);
    } else {
      assert x + y == y;
    }
  }

  /** Running the greedy loop over `xs + ys` is running it over `xs` and then
      over `ys` from what is left. */
  lemma {:induction false} GreedyAppend(v: int, xs: seq<int>, ys: seq<int>)
    ensures GreedyBits(v, xs + ys) == GreedyBits(v, xs) + GreedyBits(GreedyRemainder(v, xs), ys)
    ensures GreedyRemainder(v, xs + ys) == GreedyRemainder(GreedyRemainder(v, xs), ys)
    decreases xs
  {
    if xs != [] {
      assert (xs + ys)[0] == xs[0];
      assert (xs + ys)[1..] == xs[1..] + ys;
      if v >= xs[0] {
        GreedyAppend(v - xs[0], xs[1..], ys);
      } else {
        GreedyAppend(v, xs[1..], ys);
      }
    } else {
      assert xs + ys == ys;
    }
  }

  /** One more step of the greedy loop. */
  lemma GreedySnoc(v: int, ws: seq<int>, w: int)
    ensures GreedyBits(v, ws + [w]) ==
      GreedyBits(v, ws) + [if GreedyRemainder(v, ws) >= w then 1 else 0]
    ensures GreedyRemainder(v, ws + [w]) ==
      if GreedyRemainder(v, ws) >= w then GreedyRemainder(v, ws) - w else GreedyRemainder(v, ws)
  {
    GreedyAppend(v, ws, [w]);
  }

  /** The greedy bits weigh what the loop subtracted. */
  lemma {:induction false} GreedyWeigh(v: int, ws: seq<int>)
    ensures Weigh(GreedyBits(v, ws), ws) + GreedyRemainder(v, ws) == v
    decreases ws
  {
    if ws != [] {
      if v >= ws[0] {
        GreedyWeigh(v - ws[0], ws[1..]);
      } else {
        GreedyWeigh(v, ws[1..]);
      }
    }
  }

  /** Tens weights: with a units part `u` below ten, the greedy loop over the
      weights times ten sets the same bits the loop over the plain weights sets
      for the tens digit `d`, and leaves `u` on top of ten times its remainder. */
  lemma {:induction false} GreedyScale(d: int, u: int, ws: seq<int>)
    requires 0 <= u < 10
    requires forall i :: 0 <= i < |ws| ==> ws[i] >= 1
    ensures GreedyBits(10 * d + u, Scale10(ws)) == GreedyBits(d, ws)
    ensures GreedyRemainder(10 * d + u, Scale10(ws)) == 10 * GreedyRemainder(d, ws) + u
    decreases ws
  {
    if ws != [] {
      assert Scale10(ws)[0] == 10 * ws[0];
      assert Scale10(ws)[1..] == Scale10(ws[1..]);
      if d >= ws[0] {
        assert 10 * d + u - 10 * ws[0] == 10 * (d - ws[0]) + u;
        GreedyScale(d - ws[0], u, ws[1..]);
      } else {
        GreedyScale(d, u, ws[1..]);
      }
    }
  }

  /** Binary notation: a number below 2^n leaves nothing behind and is weighed back
      from its bits. */
  lemma {:induction false} GreedyBinary(d: int, n: nat)
    requires 0 <= d < Pow2(n)
    ensures GreedyRemainder(d, Pow2Weights(n)) == 0
    ensures Weigh(GreedyBits(d, Pow2Weights(n)), Pow2Weights(n)) == d
    decreases n
  {
    if n > 0 {
      var ws := Pow2Weights(n);
      assert ws[0] == Pow2(n - 1) && ws[1..] == Pow2Weights(n - 1);
      if d >= ws[0] {
        GreedyBinary(d - ws[0], n - 1);
      } else {
        GreedyBinary(d, n - 1);
      }
    }
    GreedyWeigh(d, Pow2Weights(n));
  }

  /** n binary digits weigh less than 2^n. */
  lemma {:induction false} WeighBinaryBound(bits: seq<Bit>, n: nat)
    requires |bits| == n
    ensures 0 <= Weigh(bits, Pow2Weights(n)) < Pow2(n)
  {
    if n > 0 {
      var ws := Pow2Weights(n);
      assert ws[0] == Pow2(n - 1) && ws[1..] == Pow2Weights(n - 1);
      WeighBinaryBound(bits[1..], n - 1);
    }
  }

  /** Binary notation is unique: the greedy loop recovers the bits from their weight. */
  lemma {:induction false} GreedyOfWeigh(bits: seq<Bit>, n: nat)
    requires |bits| == n
    ensures GreedyBits(Weigh(bits, Pow2Weights(n)), Pow2Weights(n)) == bits
  {
    if n > 0 {
      var ws := Pow2Weights(n);
      assert ws[0] == Pow2(n - 1) && ws[1..] == Pow2Weights(n - 1);
      WeighBinaryBound(bits[1..], n - 1);
      GreedyOfWeigh(bits[1..], n - 1);
      assert bits == [bits[0]] + bits[1..];
    }
  }
}
