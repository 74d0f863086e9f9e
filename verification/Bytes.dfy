/**
 Bytes, fixed-width integers and their little- and big-endian encodings.

 A byte is a `bv8`, so that the masks and exclusive-ors of the kernel are the machine
 operations. Wider unsigned integers are natural numbers with an explicit bound.
 */
module Bytes {

  type byte = bv8

  const TWO_32: nat := 0x1_0000_0000
  const TWO_64: nat := 0x1_0000_0000_0000_0000

  type u32 = n: nat | n < TWO_32
  type u64 = n: nat | n < TWO_64

  /** A 32-byte digest, MAC or key. */
  type Bytes32 = s: seq<byte> | |s| == 32 witness seq(32, _ => 0)

  datatype Option<+T> = None | Some(value: T)

  predicate Distinct<T(==)>(s: seq<T>) { forall i, j :: 0 <= i < |s| && i < j < |s| ==> s[i] != s[j] }

  function Zeros(n: nat): (z: seq<byte>)
    ensures |z| == n && forall i :: 0 <= i < n ==> z[i] == 0
  {
    seq(n, _ => 0)
  }

  /** The bytes of a byte-string literal. */
  function Ascii(s: string): (b: seq<byte>)
    ensures |b| == |s|
  {
    seq(|s|, i requires 0 <= i < |s| => (s[i] as nat % 256) as byte)
  }

  /** 256 to the power `k`. */
  function Pow256(k: nat): (p: nat)
    ensures p >= 1
  {
    if k == 0 then 1 else 256 * Pow256(k - 1)
  }

  /** The `k` low bytes of `n`, least significant first. */
  function LittleEndian(n: nat, k: nat): (b: seq<byte>)
    ensures |b| == k
  {
    if k == 0 then [] else [(n % 256) as byte] + LittleEndian(n / 256, k - 1)
  }

  /** The `k` low bytes of `n`, most significant first. */
  function BigEndian(n: nat, k: nat): (b: seq<byte>)
    ensures |b| == k
  {
    if k == 0 then [] else BigEndian(n / 256, k - 1) + [(n % 256) as byte]
  }

  /** The number a little-endian byte string stands for. */
  function FromLittleEndian(b: seq<byte>): (n: nat)
  {
    if b == [] then 0 else b[0] as nat + 256 * FromLittleEndian(b[1..])
  }

  lemma ByteOfValue(b: byte)
    ensures (b as nat) as byte == b
  {
  }

  lemma Successor(b: byte)
    requires b != 255
    ensures (b + 1) as nat == b as nat + 1
  {
  }

  /** Every number below 256 is the value of a byte, found by counting up to it. */
  lemma {:induction false} ByteWithValue(n: nat) returns (b: byte)
    requires n < 256
    ensures b as nat == n
  {
    b := 0;
    if n > 0 {
      var c := ByteWithValue(n - 1);
      Successor(c);
      b := c + 1;
    }
  }

  lemma ByteRoundTrip(n: nat)
    requires n < 256
    ensures (n as byte) as nat == n
  {
    var b := ByteWithValue(n);
    ByteOfValue(b);
  }

  lemma ByteInjective(a: byte, b: byte)
    requires a as nat == b as nat
    ensures a == b
  {
    ByteOfValue(a);
    ByteOfValue(b);
  }

  lemma {:induction false} FromLittleEndianBound(b: seq<byte>)
    ensures FromLittleEndian(b) < Pow256(|b|)
  {
    if b != [] {
      FromLittleEndianBound(b[1..]);
    }
  }

  /** Encoding then decoding keeps the `8 * k` low bits. */
  lemma {:induction false} LittleEndianValue(n: nat, k: nat)
    requires n < Pow256(k)
    ensures FromLittleEndian(LittleEndian(n, k)) == n
  {
    if k > 0 {
      ByteRoundTrip(n % 256);
      LittleEndianValue(n / 256, k - 1);
      assert LittleEndian(n, k)[1..] == LittleEndian(n / 256, k - 1);
    }
  }

  lemma LowDigit(d: nat, n: nat, e: nat, m: nat)
    requires d < 256 && e < 256 && d + 256 * n == e + 256 * m
    ensures d == e && n == m
  {
  }

  /** Decoding loses nothing: byte strings of one length with one value are equal. */
  lemma {:induction false} FromLittleEndianInjective(a: seq<byte>, b: seq<byte>)
    requires |a| == |b| && FromLittleEndian(a) == FromLittleEndian(b)
    ensures a == b
  {
    if a != [] {
      LowDigit(a[0] as nat, FromLittleEndian(a[1..]), b[0] as nat, FromLittleEndian(b[1..]));
      ByteInjective(a[0], b[0]);
      FromLittleEndianInjective(a[1..], b[1..]);
      assert a == [a[0]] + a[1..] && b == [b[0]] + b[1..];
    }
  }

  lemma LittleEndianInjective(n: nat, m: nat, k: nat)
    requires n < Pow256(k) && m < Pow256(k)
    requires LittleEndian(n, k) == LittleEndian(m, k)
    ensures n == m
  {
    LittleEndianValue(n, k);
    LittleEndianValue(m, k);
  }

  lemma SameLowByte(n: nat, m: nat)
    requires (n % 256) as byte == (m % 256) as byte
    ensures n % 256 == m % 256
  {
    ByteRoundTrip(n % 256);
    ByteRoundTrip(m % 256);
  }

  lemma {:induction false} BigEndianInjective(n: nat, m: nat, k: nat)
    requires n < Pow256(k) && m < Pow256(k)
    requires BigEndian(n, k) == BigEndian(m, k)
    ensures n == m
  {
    if k > 0 {
      var a, b := BigEndian(n, k), BigEndian(m, k);
      assert a[..k - 1] == BigEndian(n / 256, k - 1) && b[..k - 1] == BigEndian(m / 256, k - 1);
      BigEndianInjective(n / 256, m / 256, k - 1);
      assert a[k - 1] == (n % 256) as byte && b[k - 1] == (m % 256) as byte;
      SameLowByte(n, m);
      LowDigit(n % 256, n / 256, m % 256, m / 256);
    }
  }

  /** The widths the kernel encodes: two, four and eight bytes. */
  lemma Widths()
    ensures Pow256(2) == 0x1_0000 && Pow256(4) == TWO_32 && Pow256(8) == TWO_64
    ensures Pow256(16) == TWO_64 * TWO_64
  {
    assert Pow256(4) == TWO_32;
    assert Pow256(8) == 256 * (256 * (256 * (256 * Pow256(4))));
    assert Pow256(12) == 256 * (256 * (256 * (256 * Pow256(8))));
    assert Pow256(16) == 256 * (256 * (256 * (256 * Pow256(12))));
  }

  /** Copy bytes into a buffer at an offset. */
  method Copy(buf: array<byte>, off: nat, src: seq<byte>)
    requires off + |src| <= buf.Length
    modifies buf
    ensures buf[..] == old(buf[..off]) + src + old(buf[off + |src|..])
  {
    for i := 0 to |src|
      invariant forall j :: 0 <= j < off || off + i <= j < buf.Length ==> buf[j] == old(buf[j])
      invariant forall j :: 0 <= j < i ==> buf[off + j] == src[j]
    {
      buf[off + i] := src[i];
    }
  }

  /**
   The comparison loop every MAC check uses: or together the differences, and only then test
   for zero. It decides equality.
   */
  method ConstantTimeEqual(a: seq<byte>, b: seq<byte>) returns (equal: bool)
    requires |a| == |b|
    ensures equal <==> a == b
  {
    var diff: byte := 0;
    for i := 0 to |a|
      invariant diff == 0 <==> a[..i] == b[..i]
    {
      assert a[..i + 1] == a[..i] + [a[i]] && b[..i + 1] == b[..i] + [b[i]];
      assert (diff | (a[i] ^ b[i])) == 0 <==> diff == 0 && a[i] == b[i];
      diff := diff | (a[i] ^ b[i]);
    }
    assert a[..|a|] == a && b[..|b|] == b;
    equal := diff == 0;
  }
}
