/**
 The Poly1305 one-time authenticator, kernel/src/poly1305.rs.

 The specification is section 2.5 of RFC 8439, written over unbounded naturals. The
 implementation keeps a 130-bit accumulator in two limbs, a `u64` holding the bits from 128
 upwards and a `u128` holding the rest, and every one of its operations wraps or reports a
 carry. The model writes each wrap-around out, and the proof shows that none of them loses a bit.
 */
module Poly1305 {
  import opened Bytes

  const TWO_128: nat := 0x1_0000_0000_0000_0000_0000_0000_0000_0000
  const TWO_124: nat := 0x1000_0000_0000_0000_0000_0000_0000_0000

  /** The prime 2^130 - 5. */
  const P: nat := 4 * TWO_128 - 5

  type u128 = n: nat | n < TWO_128

  // ---------------------------------------------------------------------------------------
  // Section 2.5 of RFC 8439
  // ---------------------------------------------------------------------------------------

  /** The mask 0x0ffffffc0ffffffc0ffffffc0fffffff, on the little-endian bytes. */
  function Clamped(r: seq<byte>): (c: seq<byte>)
    requires |r| == 16
    ensures |c| == 16
  {
    seq(16, i requires 0 <= i < 16 =>
      if i in {3, 7, 11, 15} then r[i] & 15 else if i in {4, 8, 12} then r[i] & 252 else r[i])
  }

  /** The multiplier r: the first half of the key, masked. */
  function Multiplier(key: seq<byte>): nat
    requires |key| == 32
  {
    FromLittleEndian(Clamped(key[..16]))
  }

  /** The summand s: the second half of the key. */
  function Summand(key: seq<byte>): nat
    requires |key| == 32
  {
    FromLittleEndian(key[16..])
  }

  /** The coefficients: the 16-byte blocks, the last one possibly short, each with a 1 byte appended. */
  function Coefficients(msg: seq<byte>): seq<nat>
  {
    if msg == [] then []
    else if |msg| < 16 then [FromLittleEndian(msg + [1])]
    else [FromLittleEndian(msg[..16] + [1])] + Coefficients(msg[16..])
  }

  function Pow(r: nat, k: nat): nat
  {
    if k == 0 then 1 else r * Pow(r, k - 1)
  }

  /** c[0] * r^q + c[1] * r^(q-1) + ... + c[q-1] * r, over the naturals. */
  function Polynomial(r: nat, c: seq<nat>): nat
  {
    if c == [] then 0 else c[0] * Pow(r, |c|) + Polynomial(r, c[1..])
  }

  /** The tag as a number: the polynomial modulo 2^130 - 5, plus s, modulo 2^128. */
  function TagValue(key: seq<byte>, msg: seq<byte>): u128
    requires |key| == 32
  {
    (Polynomial(Multiplier(key), Coefficients(msg)) % P + Summand(key)) % TWO_128
  }

  function TagByte(key: seq<byte>, msg: seq<byte>, i: nat): byte
    requires |key| == 32 && i < 16
  {
    LittleEndian(TagValue(key, msg), 16)[i]
  }

  /** The tag as 16 little-endian bytes. */
  function Tag(key: seq<byte>, msg: seq<byte>): (tag: seq<byte>)
    requires |key| == 32
    ensures |tag| == 16
  {
    seq(16, i requires 0 <= i < 16 => TagByte(key, msg, i))
  }

  lemma TagIs(key: seq<byte>, msg: seq<byte>)
    requires |key| == 32
    ensures Tag(key, msg) == LittleEndian(TagValue(key, msg), 16)
  {
  }

  // ---------------------------------------------------------------------------------------
  // The accumulator, one block at a time
  // ---------------------------------------------------------------------------------------

  /** Absorb the coefficients from left to right, reducing at every block. */
  function Absorb(r: nat, acc: nat, c: seq<nat>): nat
    decreases |c|
  {
    if c == [] then acc else Absorb(r, (acc + c[0]) * r % P, c[1..])
  }

  lemma ModMultiple(x: int, y: int, k: int)
    requires x == y + k * P
    ensures x % P == y % P
  {
  }

  /** Horner's rule: reducing at every block gives the polynomial modulo 2^130 - 5. */
  lemma {:induction false} AbsorbIsPolynomial(r: nat, acc: nat, c: seq<nat>)
    ensures Absorb(r, acc, c) % P == (acc * Pow(r, |c|) + Polynomial(r, c)) % P
    decreases |c|
  {
    if c != [] {
      var x, w := (acc + c[0]) * r, Pow(r, |c| - 1);
      AbsorbIsPolynomial(r, x % P, c[1..]);
      calc {
        acc * Pow(r, |c|) + Polynomial(r, c);
        acc * (r * w) + c[0] * (r * w) + Polynomial(r, c[1..]);
        { Distribute(acc, c[0], r, w); }
        x * w + Polynomial(r, c[1..]);
        { Quotient(x, w); }
        (x % P) * w + Polynomial(r, c[1..]) + (x / P * w) * P;
      }
      ModMultiple(acc * Pow(r, |c|) + Polynomial(r, c), (x % P) * w + Polynomial(r, c[1..]), x / P * w);
    }
  }

  lemma Distribute(a: nat, b: nat, r: nat, w: nat)
    ensures a * (r * w) + b * (r * w) == (a + b) * r * w
  {
    assert (a + b) * r * w == (a + b) * (r * w);
  }

  lemma Quotient(x: nat, w: nat)
    ensures x * w == (x % P) * w + (x / P * w) * P
  {
    assert x == x % P + x / P * P;
    assert (x / P * P) * w == (x / P * w) * P;
  }

  // ---------------------------------------------------------------------------------------
  // Loading and clamping
  // ---------------------------------------------------------------------------------------

  /** Up to 16 bytes, zero-filled at the top, as a little-endian u128. */
  function LoadLe(b: seq<byte>): (n: u128)
    ensures |b| <= 16 ==> n == FromLittleEndian(b)
  {
    var len := if |b| < 16 then |b| else 16;
    var tmp := b[..len] + Zeros(16 - len);
    FromLittleEndianBound(tmp);
    Widths();
    ZerosOnTop(b[..len], 16 - len);
    assert |b| <= 16 ==> b[..len] == b;
    FromLittleEndian(tmp)
  }

  lemma {:induction false} ZerosOnTop(b: seq<byte>, n: nat)
    ensures FromLittleEndian(b + Zeros(n)) == FromLittleEndian(b)
  {
    if b != [] {
      ZerosOnTop(b[1..], n);
      assert (b + Zeros(n))[1..] == b[1..] + Zeros(n);
    } else if n > 0 {
      ZerosOnTop(b, n - 1);
      assert (b + Zeros(n))[1..] == b + Zeros(n - 1);
    }
  }

  /** The appended byte adds one unit just above the block. */
  lemma {:induction false} AppendedOne(b: seq<byte>)
    ensures FromLittleEndian(b + [1]) == FromLittleEndian(b) + Pow256(|b|)
  {
    if b == [] {
      assert (b + [1])[1..] == [];
    } else {
      AppendedOne(b[1..]);
      assert (b + [1])[1..] == b[1..] + [1];
    }
  }

  lemma {:induction false} Pow256Monotone(j: nat, k: nat)
    requires j <= k
    ensures Pow256(j) <= Pow256(k)
  {
    if j < k {
      Pow256Monotone(j, k - 1);
    }
  }

  /** A short last byte keeps the whole number short. */
  lemma {:induction false} TopByteBound(b: seq<byte>)
    requires |b| > 0 && b[|b| - 1] as nat < 16
    ensures FromLittleEndian(b) < 16 * Pow256(|b| - 1)
  {
    if |b| > 1 {
      TopByteBound(b[1..]);
    }
  }

  method Clamp(r: array<byte>)
    requires r.Length == 16
    modifies r
    ensures r[3] == old(r[3]) & 15 && r[7] == old(r[7]) & 15 && r[11] == old(r[11]) & 15 && r[15] == old(r[15]) & 15
    ensures r[4] == old(r[4]) & 252 && r[8] == old(r[8]) & 252 && r[12] == old(r[12]) & 252
    ensures forall i :: 0 <= i < 16 && i !in {3, 7, 11, 15, 4, 8, 12} ==> r[i] == old(r[i])
  {
    r[3] := r[3] & 15;
    r[7] := r[7] & 15;
    r[11] := r[11] & 15;
    r[15] := r[15] & 15;
    r[4] := r[4] & 252;
    r[8] := r[8] & 252;
    r[12] := r[12] & 252;
  }

  lemma ClampedBytes(r: seq<byte>, c: seq<byte>)
    requires |r| == |c| == 16
    requires c[3] == r[3] & 15 && c[7] == r[7] & 15 && c[11] == r[11] & 15 && c[15] == r[15] & 15
    requires c[4] == r[4] & 252 && c[8] == r[8] & 252 && c[12] == r[12] & 252
    requires forall i :: 0 <= i < 16 && i !in {3, 7, 11, 15, 4, 8, 12} ==> c[i] == r[i]
    ensures c == Clamped(r)
  {
  }

  lemma MultiplierBound(key: seq<byte>)
    requires |key| == 32
    ensures Multiplier(key) < TWO_124
  {
    assert Clamped(key[..16])[15] == key[15] & 15;
    assert (key[15] & 15) as nat < 16;
    TopByteBound(Clamped(key[..16]));
    Pow256Of15();
  }

  lemma Pow256Of15()
    ensures 16 * Pow256(15) == TWO_124 && Pow256(16) == TWO_128
  {
    Widths();
    assert Pow256(16) == 256 * Pow256(15);
  }

  // ---------------------------------------------------------------------------------------
  // The two-limb step
  // ---------------------------------------------------------------------------------------

  /** The wrapping sum of two u128 values, and whether it overflowed. */
  function OverflowingAdd(a: u128, b: u128): (u128, bool)
  {
    if a + b < TWO_128 then (a + b, false) else (a + b - TWO_128, true)
  }

  /** The wrapping difference of two u128 values, and whether it borrowed. */
  function OverflowingSub(a: u128, b: u128): (u128, bool)
  {
    if a >= b then (a - b, false) else (a - b + TWO_128, true)
  }

  function WrappingAdd(a: u128, b: u128): u128 { OverflowingAdd(a, b).0 }

  function WrappingMul(a: u128, b: u128): u128 { (a * b) % TWO_128 }

  function WrappingAdd64(a: u64, b: u64): u64 { if a + b < TWO_64 then a + b else a + b - TWO_64 }

  function WrappingSub64(a: u64, b: u64): u64 { if a >= b then a - b else a - b + TWO_64 }

  function Bit(c: bool): u64 { if c then 1 else 0 }

  /** The two limbs as one number. */
  function Value(h0: u64, h1: u128): nat { h0 * TWO_128 + h1 }

  /** The high 128 bits of b * r, by four 64 x 64 products, as the kernel computes them. */
  function MulHigh(b: u128, r: u128): u128
  {
    var blo, bhi, rlo, rhi := b % TWO_64, b / TWO_64, r % TWO_64, r / TWO_64;
    Product64(blo, rlo); Product64(blo, rhi); Product64(bhi, rlo); Product64(bhi, rhi);
    HighColumn(blo * rlo, blo * rhi, bhi * rlo, bhi * rhi)
  }

  /** The carry out of the middle column, and the high column it goes into. */
  function HighColumn(loLo: u128, loHi: u128, hiLo: u128, hiHi: u128): u128
  {
    var mid := WrappingAdd(WrappingAdd(loLo / TWO_64, loHi % TWO_64), hiLo % TWO_64);
    WrappingAdd(WrappingAdd(WrappingAdd(mid / TWO_64, loHi / TWO_64), hiLo / TWO_64), hiHi)
  }

  lemma Product64(x: u64, y: u64)
    ensures 0 <= x * y <= (TWO_64 - 1) * (TWO_64 - 1) < TWO_128
  {
    MulMonotone(x, TWO_64 - 1, y, TWO_64 - 1);
  }

  lemma MulMonotone(x: nat, x': nat, y: nat, y': nat)
    requires x <= x' && y <= y'
    ensures 0 <= x * y <= x' * y'
  {
    assert 0 <= x * y <= x' * y <= x' * y';
  }

  /** None of the wrapping steps of `MulHigh` wraps: it is the exact high half of the product. */
  lemma MulHighExact(b: u128, r: u128)
    ensures b * r == MulHigh(b, r) * TWO_128 + WrappingMul(b, r)
  {
    var blo, bhi, rlo, rhi := b % TWO_64, b / TWO_64, r % TWO_64, r / TWO_64;
    Product64(blo, rlo); Product64(blo, rhi); Product64(bhi, rlo); Product64(bhi, rhi);
    Schoolbook(blo, bhi, rlo, rhi);
    MulMonotone(b, TWO_128 - 1, r, TWO_128 - 1);
    Columns(blo * rlo, blo * rhi, bhi * rlo, bhi * rhi, b * r);
  }

  lemma Schoolbook(blo: nat, bhi: nat, rlo: nat, rhi: nat)
    ensures (bhi * TWO_64 + blo) * (rhi * TWO_64 + rlo)
         == (bhi * rhi) * TWO_128 + (blo * rhi + bhi * rlo) * TWO_64 + blo * rlo
  {
    var r := rhi * TWO_64 + rlo;
    assert (bhi * TWO_64 + blo) * r == (bhi * r) * TWO_64 + blo * r;
    assert bhi * r == (bhi * rhi) * TWO_64 + bhi * rlo;
    assert blo * r == (blo * rhi) * TWO_64 + blo * rlo;
  }

  /** Summing the four products column by column: no carry of `HighColumn` is lost. */
  lemma Columns(ll: u128, lh: u128, hl: u128, hh: u128, x: nat)
    requires lh <= (TWO_64 - 1) * (TWO_64 - 1) && hl <= (TWO_64 - 1) * (TWO_64 - 1)
    requires x == hh * TWO_128 + (lh + hl) * TWO_64 + ll < TWO_128 * TWO_128
    ensures x == HighColumn(ll, lh, hl, hh) * TWO_128 + x % TWO_128
  {
    var mid := ll / TWO_64 + lh % TWO_64 + hl % TWO_64;
    assert HighColumn(ll, lh, hl, hh) == mid / TWO_64 + lh / TWO_64 + hl / TWO_64 + hh;
  }

  /** The block with its 1 bit, as the kernel forms it: a u128 and the bit above it. */
  function WithOneBit(block: seq<byte>, full: bool): (r: (u128, u64))
    requires |block| <= 16
    ensures r.0 + r.1 * TWO_128 == FromLittleEndian(block + [1])
    ensures r.1 <= 1
  {
    var n := LoadLe(block);
    Widths();
    AppendedOne(block);
    FromLittleEndianBound(block);
    if full && |block| == 16 then (n, 1)
    else if |block| * 8 < 128 then
      Pow256Monotone(|block| + 1, 16);
      var (v, c) := OverflowingAdd(n, Pow256(|block|));
      (v, Bit(c))
    else (n, 1)
  }

  /** The product of the accumulator and r, as a high and a low u128: 254 bits, none lost. */
  method WideProduct(a0: u64, a1: u128, r: u128) returns (hi: u128, lo: u128)
    requires a0 <= 5 && r < TWO_124
    ensures hi < 6 * TWO_124
    ensures Value(a0, a1) * r == hi * TWO_128 + lo
  {
    MulHighExact(a1, r);
    lo := WrappingMul(a1, r);
    var brHi := MulHigh(a1, r);
    HighBound(a0, a1, r, brHi, lo);
    var ar := WrappingMul(a0, r);
    hi := OverflowingAdd(brHi, ar).0;
  }

  lemma HighBound(a0: u64, a1: u128, r: u128, brHi: u128, lo: u128)
    requires a0 <= 5 && r < TWO_124 && a1 * r == brHi * TWO_128 + lo
    ensures WrappingMul(a0, r) == a0 * r <= 5 * TWO_124
    ensures brHi < TWO_124
    ensures Value(a0, a1) * r == (brHi + a0 * r) * TWO_128 + lo
  {
    MulMonotone(a1, TWO_128, r, TWO_124 - 1);
    MulMonotone(a0, 5, r, TWO_124 - 1);
    assert Value(a0, a1) * r == (a0 * r) * TWO_128 + a1 * r;
  }

  /** Folding back: 2^130 is 5 modulo the prime, so bits above 2^130 come back five times. */
  lemma FoldExact(hi: nat, lo: u128, x: nat)
    requires hi < 6 * TWO_124 && x == hi * TWO_128 + lo
    ensures 5 * (hi / 4) < TWO_128
    ensures hi % 4 * TWO_128 + lo + 5 * (hi / 4) < 2 * P
    ensures (hi % 4 * TWO_128 + lo + 5 * (hi / 4)) % P == x % P
  {
    ModMultiple(x, hi % 4 * TWO_128 + lo + 5 * (hi / 4), hi / 4);
  }

  lemma TimesFive(n: u128)
    requires 5 * n < TWO_128
    ensures WrappingMul(n, 5) == 5 * n
  {
  }

  lemma AddLow(h0: u64, lo: u128, x: u128)
    requires h0 < 4
    ensures var (sum, c) := OverflowingAdd(lo, x);
            Value(WrappingAdd64(h0, Bit(c)), sum) == h0 * TWO_128 + lo + x
  {
  }

  /** h += block with its 1 bit; the high limb stays at most 5. */
  method AddCoefficient(h0: u64, h1: u128, block: seq<byte>, full: bool) returns (a0: u64, a1: u128)
    requires Value(h0, h1) <= P && |block| <= 16
    ensures a0 <= 5
    ensures Value(a0, a1) == Value(h0, h1) + FromLittleEndian(block + [1])
  {
    var (n1, carry) := WithOneBit(block, full);
    var (sum, c) := OverflowingAdd(h1, n1);
    a0, a1 := WrappingAdd64(WrappingAdd64(h0, carry), Bit(c)), sum;
  }

  /** Fold the bits above 2^130 back in. */
  method FoldBack(hi: u128, lo: u128) returns (g0: u64, g1: u128)
    requires hi < 6 * TWO_124
    ensures Value(g0, g1) < 2 * P
    ensures Value(g0, g1) % P == (hi * TWO_128 + lo) % P
  {
    FoldExact(hi, lo, hi * TWO_128 + lo);
    TimesFive(hi / 4);
    var (b1, c) := OverflowingAdd(lo, WrappingMul(hi / 4, 5));
    AddLow(hi % 4, lo, 5 * (hi / 4));
    g0, g1 := WrappingAdd64(hi % 4, Bit(c)), b1;
  }

  /** Subtract the prime once, if the accumulator exceeds it. */
  method ReduceOnce(h0: u64, h1: u128) returns (g0: u64, g1: u128)
    requires Value(h0, h1) < 2 * P
    ensures Value(g0, g1) <= P
    ensures Value(g0, g1) % P == Value(h0, h1) % P
  {
    g0, g1 := h0, h1;
    if h0 >= 4 || (h0 == 3 && h1 >= TWO_128 - 4) {
      g0, g1 := SubtractPrime(h0, h1);
      ModMultiple(Value(h0, h1), Value(g0, g1), 1);
    }
  }

  /** Absorb one block into the accumulator: add it, multiply by r, reduce. */
  method AddBlock(h0: u64, h1: u128, r: u128, block: seq<byte>, full: bool) returns (g0: u64, g1: u128)
    requires Value(h0, h1) <= P && r < TWO_124 && |block| <= 16
    ensures Value(g0, g1) <= P
    ensures Value(g0, g1) % P == (Value(h0, h1) + FromLittleEndian(block + [1])) * r % P
  {
    var a0, a1 := AddCoefficient(h0, h1, block, full);
    var hi, lo := WideProduct(a0, a1, r);
    g0, g1 := FoldBack(hi, lo);
    g0, g1 := ReduceOnce(g0, g1);
  }

  /** One subtraction of the prime over the two limbs. */
  method SubtractPrime(h0: u64, h1: u128) returns (d0: u64, d1: u128)
    requires Value(h0, h1) >= P
    ensures Value(d0, d1) == Value(h0, h1) - P
  {
    var (lo, borrow) := OverflowingSub(h1, TWO_128 - 5);
    d0, d1 := WrappingSub64(WrappingSub64(h0, 3), Bit(borrow)), lo;
  }

  /** Absorb the 16-byte blocks; fewer than 16 bytes are left, from `offset` on. */
  method AbsorbBlocks(r: u128, msg: seq<byte>) returns (h0: u64, h1: u128, offset: nat)
    requires r < TWO_124
    ensures offset <= |msg| < offset + 16 && Value(h0, h1) <= P
    ensures Absorb(r, Value(h0, h1) % P, Coefficients(msg[offset..])) == Absorb(r, 0, Coefficients(msg))
  {
    h0, h1, offset := 0, 0, 0;
    assert msg[0..] == msg;
    while offset + 16 <= |msg|
      invariant 0 <= offset <= |msg|
      invariant Value(h0, h1) <= P
      invariant Absorb(r, Value(h0, h1) % P, Coefficients(msg[offset..])) == Absorb(r, 0, Coefficients(msg))
    {
      h0, h1 := AbsorbFull(h0, h1, r, msg, offset);
      offset := offset + 16;
    }
  }

  /** Absorb the full block at `offset`: what is left to absorb comes to the same. */
  method AbsorbFull(h0: u64, h1: u128, r: u128, msg: seq<byte>, offset: nat) returns (g0: u64, g1: u128)
    requires Value(h0, h1) <= P && r < TWO_124 && offset + 16 <= |msg|
    ensures Value(g0, g1) <= P
    ensures Absorb(r, Value(g0, g1) % P, Coefficients(msg[offset + 16..])) ==
            Absorb(r, Value(h0, h1) % P, Coefficients(msg[offset..]))
  {
    AbsorbNext(r, Value(h0, h1), msg, offset);
    g0, g1 := AddBlock(h0, h1, r, msg[offset..offset + 16], true);
  }

  lemma AbsorbNext(r: nat, h: nat, msg: seq<byte>, offset: nat)
    requires offset + 16 <= |msg|
    ensures Absorb(r, h % P, Coefficients(msg[offset..])) ==
            Absorb(r, (h + FromLittleEndian(msg[offset..offset + 16] + [1])) * r % P, Coefficients(msg[offset + 16..]))
  {
    AbsorbBlock(r, h, msg[offset..]);
    assert msg[offset..][..16] == msg[offset..offset + 16];
    assert msg[offset..][16..] == msg[offset + 16..];
  }

  /** Absorb a whole message: the 16-byte blocks, then the short one if there is one. */
  method AbsorbMessage(r: u128, msg: seq<byte>) returns (h0: u64, h1: u128)
    requires r < TWO_124
    ensures Value(h0, h1) <= P
    ensures Value(h0, h1) % P == Absorb(r, 0, Coefficients(msg))
  {
    var offset;
    h0, h1, offset := AbsorbBlocks(r, msg);
    if offset < |msg| {
      AbsorbBlock(r, Value(h0, h1), msg[offset..]);
      h0, h1 := AddBlock(h0, h1, r, msg[offset..], false);
    }
  }

  /** One subtraction leaves the accumulator below the prime. */
  method FinalReduce(h0: u64, h1: u128) returns (g0: u64, g1: u128)
    requires Value(h0, h1) <= P
    ensures Value(g0, g1) == Value(h0, h1) % P < P
  {
    g0, g1 := h0, h1;
    if h0 > 3 || (h0 == 3 && h1 >= TWO_128 - 5) {
      g0, g1 := SubtractPrime(h0, h1);
      ModMultiple(Value(h0, h1), Value(g0, g1), 1);
    }
  }

  /** The clamped multiplier and the summand, from the two halves of the key. */
  method SplitKey(key: seq<byte>) returns (r: u128, s: u128)
    requires |key| == 32
    ensures r == Multiplier(key) && s == Summand(key) && r < TWO_124
  {
    var rBytes := new byte[16](i requires 0 <= i < 16 => key[i]);
    assert rBytes[..] == key[..16];
    Clamp(rBytes);
    ClampedBytes(key[..16], rBytes[..]);
    r, s := LoadLe(rBytes[..]), LoadLe(key[16..]);
    MultiplierBound(key);
  }

  /** The accumulator after the message and the last reduction: the polynomial modulo the prime. */
  method Accumulate(r: u128, msg: seq<byte>) returns (h0: u64, h1: u128)
    requires r < TWO_124
    ensures Value(h0, h1) == Polynomial(r, Coefficients(msg)) % P
  {
    h0, h1 := AbsorbMessage(r, msg);
    AbsorbFromZero(r, Coefficients(msg), Value(h0, h1));
    h0, h1 := FinalReduce(h0, h1);
  }

  lemma AbsorbFromZero(r: nat, c: seq<nat>, h: nat)
    requires h % P == Absorb(r, 0, c)
    ensures h % P == Polynomial(r, c) % P
  {
    AbsorbIsPolynomial(r, 0, c);
    NothingAbove(h, Absorb(r, 0, c), Pow(r, |c|), Polynomial(r, c));
  }

  lemma NothingAbove(h: nat, a: nat, w: nat, p: nat)
    requires h % P == a && a % P == (0 * w + p) % P
    ensures h % P == p % P
  {
    assert 0 * w == 0;
  }

  /** The authenticator is the one of the RFC, for every key and every message. */
  method Authenticate(key: seq<byte>, msg: seq<byte>) returns (tag: seq<byte>)
    requires |key| == 32
    ensures tag == Tag(key, msg)
  {
    var r, s := SplitKey(key);
    var h0, h1 := Accumulate(r, msg);
    SumIsTag(key, msg, h0, h1);
    tag := LittleEndian(OverflowingAdd(h1, s).0, 16);
    TagIs(key, msg);
  }

  lemma SumIsTag(key: seq<byte>, msg: seq<byte>, h0: u64, h1: u128)
    requires |key| == 32 && Summand(key) < TWO_128
    requires Value(h0, h1) == Polynomial(Multiplier(key), Coefficients(msg)) % P
    ensures OverflowingAdd(h1, Summand(key)).0 == TagValue(key, msg)
  {
    AddSummand(h0, h1, Summand(key));
  }

  /** The high limb is above 2^128, so it does not reach the tag. */
  lemma AddSummand(h0: u64, h1: u128, s: u128)
    ensures OverflowingAdd(h1, s).0 == (Value(h0, h1) + s) % TWO_128
  {
    var t := OverflowingAdd(h1, s);
    var q := h0 + Bit(t.1);
    assert Value(h0, h1) + s == q * TWO_128 + t.0;
  }

  /** Absorbing the first block of what is left, from an accumulator that need not be reduced. */
  lemma AbsorbBlock(r: nat, h: nat, rest: seq<byte>)
    requires rest != []
    ensures var b := if |rest| < 16 then rest else rest[..16];
            var later := if |rest| < 16 then [] else rest[16..];
            Absorb(r, h % P, Coefficients(rest)) ==
            Absorb(r, (h + FromLittleEndian(b + [1])) * r % P, Coefficients(later))
  {
    var b := if |rest| < 16 then rest else rest[..16];
    var later := if |rest| < 16 then [] else rest[16..];
    var c := FromLittleEndian(b + [1]);
    assert Coefficients(rest) == [c] + Coefficients(later);
    assert (h + c) * r == (h % P + c) * r + (h / P * r) * P by {
      assert h == h % P + h / P * P;
      assert (h / P * P) * r == (h / P * r) * P;
      assert (h + c) * r == (h % P + c) * r + (h / P * P) * r;
    }
    ModMultiple((h + c) * r, (h % P + c) * r, h / P * r);
  }
}
