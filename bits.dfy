/**
 * Bit access on the non-negative integers that Python's `bytes` hold,
 * as the fuzzer's `getBit` and `getBits` helpers read them, plus
 * big-endian bit strings used by the raw bit-flip mutator.
 *
 * `x >> k` on a non-negative integer is `x / 2^k`, and masking with
 * `(1 << w) - 1` keeps `x % 2^w`; both are written that way below.
 */
module Bits {

  /** One element of a Python `bytes` object. */
  type byte = b: int | 0 <= b < 256

  function Pow2(k: nat): (r: nat)
    ensures r >= 1
  {
    if k == 0 then 1 else 2 * Pow2(k - 1)
  }

  /** Bit `i` of `x`, counting from the least significant bit 0, by repeated halving. */
  function BitAt(x: nat, i: nat): (r: nat)
    ensures r < 2
  {
    if i == 0 then x % 2 else BitAt(x / 2, i - 1)
  }

  /** The `w` bits of `x` from bit `start` upwards, read as a number (bit `start` is worth 1). */
  function BitsValue(x: nat, start: nat, w: nat): (v: nat)
    decreases w
  {
    if w == 0 then 0 else BitAt(x, start) + 2 * BitsValue(x, start + 1, w - 1)
  }

  /** getBit(byte, ind): `(byte >> ind) & 1`. */
  function GetBit(x: nat, ind: nat): (r: nat)
    ensures r == 0 || r == 1
  {
    (x / Pow2(ind)) % 2
  }

  /** getBits(byte, start, end): `(byte >> start) & ((1 << (end - start + 1)) - 1)`.
      Python refuses a negative shift count, hence the precondition. */
  function GetBits(x: nat, start: nat, end: nat): (r: nat)
    requires start <= end + 1
    ensures r < Pow2(end + 1 - start)
  {
    (x / Pow2(start)) % Pow2(end + 1 - start)
  }

  /** The three bit tests the tag parser makes, with the powers of two worked out. */
  lemma TagBitTests(x: nat)
    ensures GetBits(x, 0, 4) == x % 32
    ensures GetBit(x, 5) == (x / 32) % 2
    ensures GetBit(x, 7) == (x / 128) % 2
  {
    assert Pow2(5) == 32;
    assert Pow2(7) == 128;
  }

  lemma MulStrict(d: nat, a: nat, b: nat)
    requires a < b
    ensures d * a + d <= d * b
  {
    var k: nat := b - a - 1;
    assert d * b == d * a + d + d * k;
  }

  /** Quotient and remainder are determined by `x == d * q + r` with `r < d`. */
  lemma DivUnique(x: nat, d: nat, q: nat, r: nat)
    requires d >= 1 && r < d && x == d * q + r
    ensures x / d == q && x % d == r
  {
    var q', r' := x / d, x % d;
    assert x == d * q' + r';
    if q' < q {
      MulStrict(d, q', q);
      assert false;
    } else if q < q' {
      MulStrict(d, q, q');
      assert false;
    }
  }

  lemma DivMul(x: nat, a: nat, b: nat)
    requires a >= 1 && b >= 1
    ensures x / (a * b) == (x / a) / b
  {
    var q, r := x / a, x % a;
    var t, u := q / b, q % b;
    Regroup(a, b, q, r, t, u);
    MulStrict(a, u, b);
    DivUnique(x, a * b, t, a * u + r);
  }

  /** `x == a * q + r` with `q == b * t + u`, regrouped around `a * b`. */
  lemma Regroup(a: nat, b: nat, q: nat, r: nat, t: nat, u: nat)
    requires q == b * t + u
    ensures a * q + r == (a * b) * t + (a * u + r)
  {
    assert a * (b * t + u) == (a * b) * t + a * u;
  }

  /** Splitting off the lowest bit of a remainder modulo an even number. */
  lemma ModSplit(q: nat, p: nat)
    requires p >= 1
    ensures q % (2 * p) == q % 2 + 2 * ((q / 2) % p)
  {
    var h, b := q / 2, q % 2;
    var t, u := h / p, h % p;
    assert q == 2 * h + b;
    assert h == p * t + u;
    assert q == (2 * p) * t + (2 * u + b);
    DivUnique(q, 2 * p, t, 2 * u + b);
  }

  /** getBit reads exactly bit `ind`. */
  lemma {:induction false} GetBitIsBitAt(x: nat, ind: nat)
    ensures GetBit(x, ind) == BitAt(x, ind)
    decreases ind
  {
    if ind > 0 {
      calc {
        GetBit(x, ind);
        (x / (2 * Pow2(ind - 1))) % 2;
        { DivMul(x, 2, Pow2(ind - 1)); }
        ((x / 2) / Pow2(ind - 1)) % 2;
        GetBit(x / 2, ind - 1);
        { GetBitIsBitAt(x / 2, ind - 1); }
        BitAt(x / 2, ind - 1);
      }
    }
  }

  /** getBits reads exactly bits `start..end`, each at its own weight. */
  lemma {:induction false} GetBitsIsBitsValue(x: nat, start: nat, end: nat)
    requires start <= end + 1
    ensures GetBits(x, start, end) == BitsValue(x, start, end + 1 - start)
    decreases end + 1 - start
  {
    if start <= end {
      GetBitsStep(x, start, end);
      GetBitsIsBitsValue(x, start + 1, end);
    }
  }

  /** The lowest bit read by getBits, and the bits above it. */
  lemma GetBitsStep(x: nat, start: nat, end: nat)
    requires start <= end
    ensures GetBits(x, start, end) == BitAt(x, start) + 2 * GetBits(x, start + 1, end)
  {
    var w := end + 1 - start;
    var q := x / Pow2(start);
    assert Pow2(w) == 2 * Pow2(w - 1);
    ModSplit(q, Pow2(w - 1));
    assert Pow2(start + 1) == Pow2(start) * 2;
    DivMul(x, Pow2(start), 2);
    GetBitIsBitAt(x, start);
  }

  /** The `w` low bits of `x`, most significant first (Python's big-endian bit order). */
  function BitsBE(x: nat, w: nat): (bs: seq<bool>)
    ensures |bs| == w
  {
    if w == 0 then [] else BitsBE(x / 2, w - 1) + [x % 2 == 1]
  }

  /** A big-endian bit string read as a number. */
  function FromBitsBE(bs: seq<bool>): (x: nat)
    ensures x < Pow2(|bs|)
  {
    if bs == [] then 0 else 2 * FromBitsBE(bs[..|bs| - 1]) + (if bs[|bs| - 1] then 1 else 0)
  }

  /** Position `k` of the big-endian string is bit `w - 1 - k` of the number. */
  lemma {:induction false} BitsBEAt(x: nat, w: nat, k: nat)
    requires k < w
    ensures BitsBE(x, w)[k] == (BitAt(x, w - 1 - k) == 1)
    decreases w
  {
    if k < w - 1 {
      BitsBEAt(x / 2, w - 1, k);
    }
  }

  /** Reading the bits of `x` back gives `x` modulo `2^w`. */
  lemma {:induction false} FromBitsOfBits(x: nat, w: nat)
    ensures FromBitsBE(BitsBE(x, w)) == x % Pow2(w)
    decreases w
  {
    if w > 0 {
      var bs := BitsBE(x, w);
      assert bs[..w - 1] == BitsBE(x / 2, w - 1);
      FromBitsOfBits(x / 2, w - 1);
      ModSplit(x, Pow2(w - 1));
    }
  }

  /** A bit string survives being read as a number and written back. */
  lemma {:induction false} BitsOfFromBits(bs: seq<bool>)
    ensures BitsBE(FromBitsBE(bs), |bs|) == bs
    decreases |bs|
  {
    if bs != [] {
      var init := bs[..|bs| - 1];
      BitsOfFromBits(init);
      assert bs == init + [bs[|bs| - 1]];
    }
  }
}
