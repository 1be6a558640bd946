/**
 * The raw bit-flip mutator of the proof-of-concept fuzzer: `flipBit`
 * inverts one bit of a byte string seen as a big-endian bit array, and
 * `mutate` flips `amount` distinct, randomly chosen bits.
 *
 * The random number generator is a parameter: `draws` is the stream of
 * values `random.randint(0, 8 * len(el) - 1)` returns, in order.
 */
module BitFlip {
  import opened Bits

  // ---------------------------------------------------------------------
  // Bit arrays

  /** `bitarray(endian="big").frombytes(a)`: eight bits per byte, the most
      significant bit of each byte first. */
  function Unpack(a: seq<byte>): (bs: seq<bool>)
    ensures |bs| == 8 * |a|
  {
    if a == [] then [] else BitsBE(a[0], 8) + Unpack(a[1..])
  }

  /** `b.tobytes()`, eight bits to a byte, the most significant first; a
      last partial byte is padded with zero bits. */
  function Pack(bs: seq<bool>): (a: seq<byte>)
    ensures |bs| <= 8 * |a| < |bs| + 8
    decreases |bs|
  {
    if bs == [] then []
    else if |bs| < 8 then
      var padded := bs + ZeroBits(8 - |bs|);
      assert |padded| == 8 && Pow2(8) == 256;
      [FromBitsBE(padded)]
    else
      assert Pow2(|bs[..8]|) == 256;
      [FromBitsBE(bs[..8])] + Pack(bs[8..])
  }

  /** Byte `i` of `tobytes` is bits `8i .. 8i+7` read big-endian, the
      bits missing from a last partial byte taken as zero. */
  lemma {:induction false} PackAt(bs: seq<bool>, i: nat)
    requires i < |Pack(bs)|
    ensures 8 * i + 8 <= |bs| ==> Pack(bs)[i] == FromBitsBE(bs[8 * i..8 * i + 8])
    ensures |bs| < 8 * i + 8 ==> Pack(bs)[i] == FromBitsBE(bs[8 * i..] + ZeroBits(8 * i + 8 - |bs|))
    decreases |bs|
  {
    if i > 0 {
      PackAt(bs[8..], i - 1);
      if 8 * i + 8 <= |bs| {
        assert bs[8..][8 * (i - 1)..8 * (i - 1) + 8] == bs[8 * i..8 * i + 8];
      } else {
        assert bs[8..][8 * (i - 1)..] == bs[8 * i..];
      }
    } else if |bs| >= 8 {
      assert bs[8 * i..8 * i + 8] == bs[..8];
    } else {
      assert bs[8 * i..] == bs;
    }
  }

  /** `n` zero bits, the padding `tobytes` appends. */
  function ZeroBits(n: nat): (z: seq<bool>)
    ensures |z| == n && forall i | 0 <= i < n :: !z[i]
  {
    seq(n, _ => false)
  }

  lemma {:induction false} PackLength(bs: seq<bool>, n: nat)
    requires |bs| == 8 * n
    ensures |Pack(bs)| == n
    decreases n
  {
    if n > 0 {
      PackLength(bs[8..], n - 1);
    }
  }

  /** Bit `i` of the array is bit `i % 8`, counted from the top, of byte `i / 8`. */
  lemma {:induction false} UnpackAt(a: seq<byte>, i: nat)
    requires i < 8 * |a|
    ensures Unpack(a)[i] == BitsBE(a[i / 8], 8)[i % 8]
    decreases |a|
  {
    if i >= 8 {
      UnpackAt(a[1..], i - 8);
      assert (i - 8) / 8 == i / 8 - 1 && (i - 8) % 8 == i % 8;
    }
  }

  /** Converting to bits and back gives the same bytes. */
  lemma {:induction false} PackUnpack(a: seq<byte>)
    ensures Pack(Unpack(a)) == a
    decreases |a|
  {
    if a != [] {
      var bs := Unpack(a);
      assert bs[..8] == BitsBE(a[0], 8);
      assert bs[8..] == Unpack(a[1..]);
      ByteBits(a[0]);
      PackUnpack(a[1..]);
    }
  }

  /** Converting whole bytes of bits to bytes and back gives the same bits. */
  lemma {:induction false} UnpackPack(bs: seq<bool>, n: nat)
    requires |bs| == 8 * n
    ensures Unpack(Pack(bs)) == bs
    decreases n
  {
    if n > 0 {
      var a := Pack(bs);
      assert a[0] == FromBitsBE(bs[..8]);
      assert a[1..] == Pack(bs[8..]);
      BitsOfFromBits(bs[..8]);
      UnpackPack(bs[8..], n - 1);
      assert bs == bs[..8] + bs[8..];
    }
  }

  // ---------------------------------------------------------------------
  // flipBit

  /** flipBit(a, ind): `b[ind] ^= 1` on the big-endian bit array of `a`. */
  function FlipBit(a: seq<byte>, i: nat): (r: seq<byte>)
    requires i < 8 * |a|
    ensures |r| == |a|
  {
    var bs := Unpack(a);
    PackLength(bs[i := !bs[i]], |a|);
    Pack(bs[i := !bs[i]])
  }

  /** Byte `x` with bit `k` (0 = most significant) inverted. */
  function FlipByte(x: byte, k: nat): (y: byte)
    requires k < 8
  {
    var bs := BitsBE(x, 8);
    assert Pow2(8) == 256;
    FromBitsBE(bs[k := !bs[k]])
  }

  /** flipBit changes exactly bit `i` of the bit array. */
  lemma FlipBitBits(a: seq<byte>, i: nat)
    requires i < 8 * |a|
    ensures Unpack(FlipBit(a, i)) == Unpack(a)[i := !Unpack(a)[i]]
  {
    var bs := Unpack(a);
    UnpackPack(bs[i := !bs[i]], |a|);
  }

  /** Flipping the same bit twice restores the input. */
  lemma FlipBitInvolution(a: seq<byte>, i: nat)
    requires i < 8 * |a|
    ensures FlipBit(FlipBit(a, i), i) == a
  {
    var bs := Unpack(a);
    FlipBitBits(a, i);
    assert bs[i := !bs[i]][i := bs[i]] == bs;
    PackUnpack(a);
  }

  /** Flips at two indices give the same bytes in either order. */
  lemma FlipBitCommute(a: seq<byte>, i: nat, j: nat)
    requires i < 8 * |a| && j < 8 * |a|
    ensures FlipBit(FlipBit(a, i), j) == FlipBit(FlipBit(a, j), i)
  {
    var bs := Unpack(a);
    FlipBitBits(a, i);
    FlipBitBits(a, j);
    if i != j {
      var fi, fj := bs[i := !bs[i]], bs[j := !bs[j]];
      assert fi[j := !fi[j]] == fj[i := !fj[i]];
    }
  }

  /** On bytes, flipBit changes byte `i / 8` only: it XORs it with the
      mask `0x80 >> (i % 8)`. */
  lemma FlipBitByte(a: seq<byte>, i: nat)
    requires i < 8 * |a|
    ensures FlipBit(a, i) == a[i / 8 := FlipByte(a[i / 8], i % 8)]
  {
    var j, k := i / 8, i % 8;
    var b := a[j := FlipByte(a[j], k)];
    var bs := Unpack(a);
    var xs := BitsBE(a[j], 8);
    BitsOfFromBits(xs[k := !xs[k]]);
    forall p | 0 <= p < 8 * |a|
      ensures Unpack(b)[p] == bs[i := !bs[i]][p]
    {
      UnpackAt(a, p);
      UnpackAt(b, p);
    }
    assert Unpack(b) == bs[i := !bs[i]];
    PackUnpack(b);
  }

  /** Inverting bit `k` from the top adds or removes its weight
      `2^(7-k)`, which is what XOR with `0x80 >> k` does. */
  lemma FlipByteValue(x: byte, k: nat)
    requires k < 8
    ensures FlipByte(x, k) == if BitAt(x, 7 - k) == 1 then x - Pow2(7 - k) else x + Pow2(7 - k)
  {
    var bs := BitsBE(x, 8);
    ByteBits(x);
    FromBitsFlip(bs, k);
    BitsBEAt(x, 8, k);
  }

  /** The eight bits of a byte read back give the byte. */
  lemma ByteBits(x: byte)
    ensures FromBitsBE(BitsBE(x, 8)) == x
  {
    FromBitsOfBits(x, 8);
    assert Pow2(8) == 256;
    DivUnique(x, 256, 0, x);
  }

  /** Inverting position `k` of a big-endian bit string moves its value by
      the weight of that position. */
  lemma {:induction false} FromBitsFlip(bs: seq<bool>, k: nat)
    requires k < |bs|
    ensures FromBitsBE(bs[k := !bs[k]])
         == if bs[k] then FromBitsBE(bs) - Pow2(|bs| - 1 - k) else FromBitsBE(bs) + Pow2(|bs| - 1 - k)
    decreases |bs|
  {
    var cs := bs[k := !bs[k]];
    var n := |bs|;
    if k < n - 1 {
      assert cs[..n - 1] == bs[..n - 1][k := !bs[k]];
      FromBitsFlip(bs[..n - 1], k);
    } else {
      assert cs[..n - 1] == bs[..n - 1];
    }
  }

  // ---------------------------------------------------------------------
  // mutate

  /** Flipping the listed bits one after another, as mutate's last loop does. */
  function FlipAll(a: seq<byte>, ts: seq<nat>): (r: seq<byte>)
    requires forall k | 0 <= k < |ts| :: ts[k] < 8 * |a|
    ensures |r| == |a|
    decreases |ts|
  {
    if ts == [] then a else FlipAll(FlipBit(a, ts[0]), ts[1..])
  }

  /** No bit position is listed twice. */
  predicate Distinct(ts: seq<nat>)
  {
    forall i, j | 0 <= i < j < |ts| :: ts[i] != ts[j]
  }

  /** The values of `s` in the order they first occur, each once: the
      targets the drawing loop keeps, a draw that is already a target
      being drawn again. */
  function Dedup(s: seq<nat>): (d: seq<nat>)
    ensures forall i | 0 <= i < |d| :: d[i] in s
  {
    if s == [] then []
    else
      var d := Dedup(s[..|s| - 1]);
      if s[|s| - 1] in d then d else d + [s[|s| - 1]]
  }

  /** The number of bit positions at which two equally long byte strings differ. */
  function Hamming(a: seq<byte>, b: seq<byte>): (d: nat)
    requires |a| == |b|
  {
    |set p | 0 <= p < 8 * |a| && Unpack(a)[p] != Unpack(b)[p]|
  }

  /** mutate(el, amount): draw until `amount` distinct bit positions are
      chosen, then flip each. */
  method Mutate(el: seq<byte>, amount: nat, draws: seq<nat>) returns (res: seq<byte>)
    requires forall k | 0 <= k < |draws| :: draws[k] < 8 * |el|
    requires amount <= |Dedup(draws)|
    ensures res == FlipAll(el, Dedup(draws)[..amount])
    ensures |res| == |el| && Hamming(el, res) == amount
    ensures amount == 0 ==> res == el
  {
    var targets := DrawTargets(el, amount, draws);
    MutateTargets(el, amount, draws);
    res := el;
    for k := 0 to |targets|
      invariant |res| == |el|
      invariant FlipAll(res, targets[k..]) == FlipAll(el, targets)
    {
      assert targets[k..][1..] == targets[k + 1..];
      res := FlipBit(res, targets[k]);
    }
    MutateDistance(el, targets);
  }

  /** The first loop of mutate: each target is drawn until the draw is not
      a target already. */
  method DrawTargets(el: seq<byte>, amount: nat, draws: seq<nat>) returns (targets: seq<nat>)
    requires forall k | 0 <= k < |draws| :: draws[k] < 8 * |el|
    requires amount <= |Dedup(draws)|
    ensures targets == Dedup(draws)[..amount]
  {
    targets := [];
    var next := 0;
    for i := 0 to amount
      invariant next <= |draws|
      invariant targets == Dedup(draws[..next]) && |targets| == i
    {
      DrawLeft(draws, next);
      var cur := draws[next];
      next := next + 1;
      while cur in targets
        invariant 0 < next <= |draws| && cur == draws[next - 1]
        invariant targets == Dedup(draws[..next - 1])
        decreases |draws| - next
      {
        DedupSnoc(draws, next - 1);
        assert Dedup(draws[..next]) == targets;
        DrawLeft(draws, next);
        cur := draws[next];
        next := next + 1;
      }
      DedupSnoc(draws, next - 1);
      targets := targets + [cur];
    }
    DedupPrefix(draws, next);
  }

  /** The targets are pairwise distinct. */
  lemma {:induction false} DedupDistinct(s: seq<nat>)
    ensures Distinct(Dedup(s))
    decreases |s|
  {
    if s != [] {
      DedupDistinct(s[..|s| - 1]);
    }
  }

  /** While fewer targets are known than the stream holds, a draw is left. */
  lemma DrawLeft(s: seq<nat>, p: nat)
    requires p <= |s| && |Dedup(s[..p])| < |Dedup(s)|
    ensures p < |s|
  {
    assert s[..|s|] == s;
  }

  /** One more draw adds it to the targets unless it is one already. */
  lemma DedupSnoc(s: seq<nat>, p: nat)
    requires p < |s|
    ensures Dedup(s[..p + 1]) == if s[p] in Dedup(s[..p]) then Dedup(s[..p]) else Dedup(s[..p]) + [s[p]]
  {
    assert s[..p + 1][..p] == s[..p];
  }

  /** The targets drawn from a prefix of the stream are a prefix of those
      drawn from the whole stream. */
  lemma {:induction false} DedupPrefix(s: seq<nat>, p: nat)
    requires p <= |s|
    ensures |Dedup(s[..p])| <= |Dedup(s)|
    ensures Dedup(s[..p]) == Dedup(s)[..|Dedup(s[..p])|]
    decreases |s|
  {
    if p < |s| {
      var init := s[..|s| - 1];
      assert init[..p] == s[..p];
      DedupPrefix(init, p);
    } else {
      assert s[..p] == s;
    }
  }

  /** After flipping distinct positions, bit `p` differs from the input
      exactly when `p` is one of them. */
  lemma {:induction false} FlipAllBits(a: seq<byte>, ts: seq<nat>)
    requires Distinct(ts) && forall k | 0 <= k < |ts| :: ts[k] < 8 * |a|
    ensures forall p | 0 <= p < 8 * |a| :: Unpack(FlipAll(a, ts))[p] == (Unpack(a)[p] != (p in ts))
    decreases |ts|
  {
    if ts != [] {
      var b := FlipBit(a, ts[0]);
      FlipBitBits(a, ts[0]);
      FlipAllBits(b, ts[1..]);
      forall p | 0 <= p < 8 * |a|
        ensures Unpack(FlipAll(a, ts))[p] == (Unpack(a)[p] != (p in ts))
      {
        assert p in ts <==> p == ts[0] || p in ts[1..];
        assert p == ts[0] ==> p !in ts[1..];
      }
    }
  }

  /** mutate(el, amount) changes the length of nothing and differs from
      `el` in exactly `amount` bits. */
  lemma MutateDistance(el: seq<byte>, ts: seq<nat>)
    requires Distinct(ts) && forall k | 0 <= k < |ts| :: ts[k] < 8 * |el|
    ensures |FlipAll(el, ts)| == |el|
    ensures Hamming(el, FlipAll(el, ts)) == |ts|
  {
    FlipAllBits(el, ts);
    var r := FlipAll(el, ts);
    var differ := set p | 0 <= p < 8 * |el| && Unpack(el)[p] != Unpack(r)[p];
    assert differ == Elems(ts);
    DistinctCard(ts);
  }

  /** The values a list holds. */
  function Elems(ts: seq<nat>): (r: set<nat>)
    ensures forall x :: x in r <==> x in ts
  {
    if ts == [] then {} else {ts[0]} + Elems(ts[1..])
  }

  /** A list of distinct values holds as many values as it has elements. */
  lemma {:induction false} DistinctCard(ts: seq<nat>)
    requires Distinct(ts)
    ensures |Elems(ts)| == |ts|
    decreases |ts|
  {
    if ts != [] {
      DistinctCard(ts[1..]);
      assert ts[0] !in Elems(ts[1..]);
    }
  }

  lemma SubsetCard(a: set<nat>, b: set<nat>)
    requires a <= b
    ensures |a| <= |b|
  {
    var rest := b - a;
    assert b == a + rest;
    assert a * rest == {};
  }

  /** The targets of mutate, whatever the draws: `amount` distinct positions,
      each inside the bit array. */
  lemma MutateTargets(el: seq<byte>, amount: nat, draws: seq<nat>)
    requires forall k | 0 <= k < |draws| :: draws[k] < 8 * |el|
    requires amount <= |Dedup(draws)|
    ensures var ts := Dedup(draws)[..amount];
      |ts| == amount && Distinct(ts) && forall k | 0 <= k < |ts| :: ts[k] < 8 * |el|
  {
    DedupDistinct(draws);
  }

  /** The stream can supply `amount` distinct positions only when
      `amount <= 8 * len(el)`; with more, the drawing loop never ends, and
      with an empty `el` any positive amount makes randint fail. */
  lemma MutateNeedsRoom(el: seq<byte>, amount: nat, draws: seq<nat>)
    requires forall k | 0 <= k < |draws| :: draws[k] < 8 * |el|
    requires amount <= |Dedup(draws)|
    ensures amount <= 8 * |el|
    ensures amount > 0 ==> |el| > 0
  {
    var d := Dedup(draws);
    DedupDistinct(draws);
    DistinctCard(d);
    SubsetCard(Elems(d), Below(8 * |el|));
  }

  /** The bit positions `0 .. n - 1`. */
  function Below(n: nat): (r: set<nat>)
    ensures forall p: nat :: p in r <==> p < n
    ensures |r| == n
  {
    if n == 0 then {} else Below(n - 1) + {n - 1}
  }

}
