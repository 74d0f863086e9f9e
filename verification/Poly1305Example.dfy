/**
 The example of section 2.5.2 of RFC 8439: the key, the message "Cryptographic Forum Research Group"
 and its tag, with the accumulator after each block. It fixes what the laws of module Poly1305 leave
 open: the halves of the key, the clamping mask, the appended byte and the byte order.
 */
module Poly1305Example {
  import opened Bytes
  import opened Poly1305

  const R: seq<byte> :=
    [0x85, 0xd6, 0xbe, 0x78] + [0x57, 0x55, 0x6d, 0x33] +
    [0x7f, 0x44, 0x52, 0xfe] + [0x42, 0xd5, 0x06, 0xa8]

  const CLAMPED: seq<byte> :=
    [0x85, 0xd6, 0xbe, 0x08] + [0x54, 0x55, 0x6d, 0x03] +
    [0x7c, 0x44, 0x52, 0x0e] + [0x40, 0xd5, 0x06, 0x08]

  const S: seq<byte> :=
    [0x01, 0x03, 0x80, 0x8a] + [0xfb, 0x0d, 0xb2, 0xfd] +
    [0x4a, 0xbf, 0xf6, 0xaf] + [0x41, 0x49, 0xf5, 0x1b]

  const M0: seq<byte> :=
    [0x43, 0x72, 0x79, 0x70] + [0x74, 0x6f, 0x67, 0x72] +
    [0x61, 0x70, 0x68, 0x69] + [0x63, 0x20, 0x46, 0x6f]

  const M1: seq<byte> :=
    [0x72, 0x75, 0x6d, 0x20] + [0x52, 0x65, 0x73, 0x65] +
    [0x61, 0x72, 0x63, 0x68] + [0x20, 0x47, 0x72, 0x6f]

  const M2: seq<byte> := [0x75, 0x70]

  // ---------------------------------------------------------------------------------------
  // Reading numbers, four bytes at a time
  // ---------------------------------------------------------------------------------------

  lemma {:induction false} Concat(a: seq<byte>, b: seq<byte>)
    ensures FromLittleEndian(a + b) == FromLittleEndian(a) + Pow256(|a|) * FromLittleEndian(b)
  {
    if a == [] {
      assert a + b == b;
    } else {
      Concat(a[1..], b);
      assert (a + b)[1..] == a[1..] + b;
      Shift(a[0] as nat, FromLittleEndian(a[1..]), Pow256(|a| - 1), FromLittleEndian(b));
    }
  }

  lemma Shift(d: nat, x: nat, w: nat, y: nat)
    ensures d + 256 * (x + w * y) == d + 256 * x + (256 * w) * y
  {
    assert 256 * (w * y) == (256 * w) * y;
  }

  lemma FourBytes(b: seq<byte>)
    requires |b| == 4
    ensures FromLittleEndian(b) ==
            b[0] as nat + 0x100 * (b[1] as nat) + 0x1_0000 * (b[2] as nat) + 0x100_0000 * (b[3] as nat)
  {
    FirstByte(b, 0);
    FirstByte(b, 1);
    FirstByte(b, 2);
    FirstByte(b, 3);
  }

  lemma FirstByte(b: seq<byte>, i: nat)
    requires i < |b|
    ensures FromLittleEndian(b[i..]) == b[i] as nat + 0x100 * FromLittleEndian(b[i + 1..])
    ensures b[0..] == b && (i + 1 == |b| ==> FromLittleEndian(b[i + 1..]) == 0)
  {
    assert b[i..][1..] == b[i + 1..];
  }

  lemma SixteenBytes(a: seq<byte>, b: seq<byte>, c: seq<byte>, d: seq<byte>)
    requires |a| == |b| == |c| == |d| == 4
    ensures FromLittleEndian(a + b + c + d) ==
            FromLittleEndian(a) + 0x1_0000_0000 * FromLittleEndian(b)
            + 0x1_0000_0000_0000_0000 * FromLittleEndian(c)
            + 0x1_0000_0000_0000_0000_0000_0000 * FromLittleEndian(d)
  {
    Widths();
    Pow12();
    Concat(a, b);
    Concat(a + b, c);
    Concat(a + b + c, d);
  }

  lemma Pow12()
    ensures Pow256(12) == 0x1_0000_0000_0000_0000_0000_0000
  {
    Widths();
    assert Pow256(12) == 256 * (256 * (256 * (256 * Pow256(8))));
  }

  lemma CLAMPEDValue()
    ensures FromLittleEndian(CLAMPED) == 0x806d5400e52447c036d555408bed685
  {
    var a, b, c, d := [0x85, 0xd6, 0xbe, 0x08], [0x54, 0x55, 0x6d, 0x03],
                      [0x7c, 0x44, 0x52, 0x0e], [0x40, 0xd5, 0x06, 0x08];
    FourBytes(a); FourBytes(b); FourBytes(c); FourBytes(d);
    SixteenBytes(a, b, c, d);
  }

  lemma SValue()
    ensures FromLittleEndian(S) == 0x1bf54941aff6bf4afdb20dfb8a800301
  {
    var a, b, c, d := [0x01, 0x03, 0x80, 0x8a], [0xfb, 0x0d, 0xb2, 0xfd],
                      [0x4a, 0xbf, 0xf6, 0xaf], [0x41, 0x49, 0xf5, 0x1b];
    FourBytes(a); FourBytes(b); FourBytes(c); FourBytes(d);
    SixteenBytes(a, b, c, d);
  }

  lemma M0Value()
    ensures FromLittleEndian(M0) == 0x6f4620636968706172676f7470797243
  {
    var a, b, c, d := [0x43, 0x72, 0x79, 0x70], [0x74, 0x6f, 0x67, 0x72],
                      [0x61, 0x70, 0x68, 0x69], [0x63, 0x20, 0x46, 0x6f];
    FourBytes(a); FourBytes(b); FourBytes(c); FourBytes(d);
    SixteenBytes(a, b, c, d);
  }

  lemma M1Value()
    ensures FromLittleEndian(M1) == 0x6f7247206863726165736552206d7572
  {
    var a, b, c, d := [0x72, 0x75, 0x6d, 0x20], [0x52, 0x65, 0x73, 0x65],
                      [0x61, 0x72, 0x63, 0x68], [0x20, 0x47, 0x72, 0x6f];
    FourBytes(a); FourBytes(b); FourBytes(c); FourBytes(d);
    SixteenBytes(a, b, c, d);
  }

  lemma ShortValue()
    ensures FromLittleEndian(M2 + [1]) == 0x17075
  {
    AppendedOne(M2);
    assert M2[1..][1..] == [];
  }

  // ---------------------------------------------------------------------------------------
  // The key and the blocks
  // ---------------------------------------------------------------------------------------

  lemma ClampedR()
    ensures |R| == 16 && Clamped(R) == CLAMPED
  {
    assert R[3] & 15 == CLAMPED[3] && R[7] & 15 == CLAMPED[7] && R[11] & 15 == CLAMPED[11] && R[15] & 15 == CLAMPED[15];
    assert R[4] & 252 == CLAMPED[4] && R[8] & 252 == CLAMPED[8] && R[12] & 252 == CLAMPED[12];
    ClampedBytes(R, CLAMPED);
  }

  lemma KeyParts()
    ensures |R + S| == 32 && Multiplier(R + S) == 0x806d5400e52447c036d555408bed685
    ensures Summand(R + S) == 0x1bf54941aff6bf4afdb20dfb8a800301
  {
    assert (R + S)[..16] == R && (R + S)[16..] == S;
    ClampedR();
    CLAMPEDValue();
    SValue();
  }

  lemma FullBlock(m: seq<byte>, rest: seq<byte>)
    requires |m| == 16
    ensures Coefficients(m + rest) == [FromLittleEndian(m) + TWO_128] + Coefficients(rest)
  {
    assert (m + rest)[..16] == m && (m + rest)[16..] == rest;
    AppendedOne(m);
    Pow256Of15();
  }

  lemma Blocks()
    ensures Coefficients(M0 + M1 + M2) ==
            [0x16f4620636968706172676f7470797243, 0x16f7247206863726165736552206d7572, 0x17075]
  {
    assert M0 + M1 + M2 == M0 + (M1 + M2);
    FullBlock(M0, M1 + M2);
    FullBlock(M1, M2);
    M0Value();
    M1Value();
    ShortValue();
  }

  // ---------------------------------------------------------------------------------------
  // The accumulator
  // ---------------------------------------------------------------------------------------

  lemma OneMore(r: nat, acc: nat, c: nat, rest: seq<nat>, next: nat)
    requires (acc + c) * r % P == next
    ensures Absorb(r, acc, [c] + rest) == Absorb(r, next, rest)
  {
    assert ([c] + rest)[1..] == rest;
  }

  lemma Accumulated(r: nat, c: seq<nat>)
    requires r == 0x806d5400e52447c036d555408bed685
    requires c == [0x16f4620636968706172676f7470797243, 0x16f7247206863726165736552206d7572, 0x17075]
    ensures Absorb(r, 0, c) == 0x28d31b7caff946c77c8844335369d03a7
  {
    OneMore(r, 0, c[0], c[1..], 0x2c88c77849d64ae9147ddeb88e69c83fc);
    OneMore(r, 0x2c88c77849d64ae9147ddeb88e69c83fc, c[1], c[2..], 0x2d8adaf23b0337fa7cccfb4ea344b30de);
    OneMore(r, 0x2d8adaf23b0337fa7cccfb4ea344b30de, c[2], [], 0x28d31b7caff946c77c8844335369d03a7);
    assert c == [c[0]] + c[1..] && c[1..] == [c[1]] + c[2..] && c[2..] == [c[2]] + [];
  }

  /** The tag of section 2.5.2, as a little-endian number. */
  lemma TagExample()
    ensures |R + S| == 32
    ensures FromLittleEndian(Tag(R + S, M0 + M1 + M2)) == 0xa927010caf8b2bc2c6365130c11d06a8
  {
    TagValueExample();
    TagIs(R + S, M0 + M1 + M2);
    Pow256Of15();
    LittleEndianValue(0xa927010caf8b2bc2c6365130c11d06a8, 16);
  }

  lemma TagValueExample()
    ensures |R + S| == 32
    ensures TagValue(R + S, M0 + M1 + M2) == 0xa927010caf8b2bc2c6365130c11d06a8
  {
    KeyParts();
    Blocks();
    var r, c := Multiplier(R + S), Coefficients(M0 + M1 + M2);
    Accumulated(r, c);
    AbsorbFromZero(r, c, 0x28d31b7caff946c77c8844335369d03a7);
    Sum128(0x28d31b7caff946c77c8844335369d03a7, Polynomial(r, c), Summand(R + S));
  }

  lemma Sum128(h: nat, p: nat, s: nat)
    requires h == 0x28d31b7caff946c77c8844335369d03a7 && h % P == p % P && s == 0x1bf54941aff6bf4afdb20dfb8a800301
    ensures (p % P + s) % TWO_128 == 0xa927010caf8b2bc2c6365130c11d06a8
  {
  }
}
