/**
 ChaCha20-Poly1305, `chacha20_poly1305_seal` and `chacha20_poly1305_open` of
 kernel/src/poly1305.rs, against section 2.8 of RFC 8439.
 */
module Aead {
  import opened Bytes
  import ChaCha20
  import Poly1305

  /** Longer inputs overflow the block counter, which the kernel treats as fatal. */
  const MAX_LEN: nat := 64 * (TWO_32 - 2)

  predicate Sized(key: seq<byte>, nonce: seq<byte>) { |key| == 32 && |nonce| == 12 }

  // ---------------------------------------------------------------------------------------
  // Section 2.8 of RFC 8439
  // ---------------------------------------------------------------------------------------

  /** The first half of keystream block 0. */
  function OneTimeKey(key: seq<byte>, nonce: seq<byte>): (k: seq<byte>)
    requires Sized(key, nonce)
    ensures |k| == 32
  {
    ChaCha20.Block(key, 0, nonce)[..32]
  }

  /** Byte `j` of the keystream that starts at block 1. */
  function KeystreamByte(key: seq<byte>, nonce: seq<byte>, j: nat): byte
    requires Sized(key, nonce) && j < MAX_LEN
  {
    ChaCha20.Block(key, 1 + j / 64, nonce)[j % 64]
  }

  /** Encryption, and decryption. */
  function Crypt(key: seq<byte>, nonce: seq<byte>, data: seq<byte>): (r: seq<byte>)
    requires Sized(key, nonce) && |data| <= MAX_LEN
    ensures |r| == |data|
  {
    seq(|data|, j requires 0 <= j < |data| => data[j] ^ KeystreamByte(key, nonce, j))
  }

  function Pad16(n: nat): nat { (16 - n % 16) % 16 }

  /** Data, padding, data, padding, and the two lengths. */
  function MacInput(aad: seq<byte>, ct: seq<byte>): seq<byte>
  {
    aad + Zeros(Pad16(|aad|)) + ct + Zeros(Pad16(|ct|)) + LittleEndian(|aad|, 8) + LittleEndian(|ct|, 8)
  }

  function TagOf(key: seq<byte>, nonce: seq<byte>, aad: seq<byte>, ct: seq<byte>): (tag: seq<byte>)
    requires Sized(key, nonce)
    ensures |tag| == 16
  {
    Poly1305.Tag(OneTimeKey(key, nonce), MacInput(aad, ct))
  }

  // ---------------------------------------------------------------------------------------
  // Laws
  // ---------------------------------------------------------------------------------------

  /** Byte `j` is encrypted with byte `j` modulo 64 of block 1 + `j` / 64. */
  lemma CryptByte(key: seq<byte>, nonce: seq<byte>, data: seq<byte>, j: nat)
    requires Sized(key, nonce) && j < |data| <= MAX_LEN
    ensures Crypt(key, nonce, data)[j] == data[j] ^ ChaCha20.Block(key, 1 + j / 64, nonce)[j % 64]
  {
  }

  /** Decrypting what was encrypted gives it back. */
  lemma CryptInvolution(key: seq<byte>, nonce: seq<byte>, data: seq<byte>)
    requires Sized(key, nonce) && |data| <= MAX_LEN
    ensures Crypt(key, nonce, Crypt(key, nonce, data)) == data
  {
    forall j | 0 <= j < |data|
      ensures (data[j] ^ KeystreamByte(key, nonce, j)) ^ KeystreamByte(key, nonce, j) == data[j]
    {
      XorTwice(data[j], KeystreamByte(key, nonce, j));
    }
  }

  lemma XorTwice(a: byte, b: byte)
    ensures (a ^ b) ^ b == a
  {
  }

  /** The authenticated string is a whole number of blocks, so `poly1305` never sees a short one. */
  lemma MacInputBlocks(aad: seq<byte>, ct: seq<byte>)
    ensures |MacInput(aad, ct)| % 16 == 0
  {
    PadCompletes(|aad|, |ct|);
  }

  lemma PadCompletes(n: nat, m: nat)
    ensures (n + Pad16(n) + m + Pad16(m) + 16) % 16 == 0
  {
    PadOne(n);
    PadOne(m);
    Multiples16(n + Pad16(n), m + Pad16(m));
  }

  lemma PadOne(n: nat)
    ensures (n + Pad16(n)) % 16 == 0
  {
  }

  lemma Multiples16(a: nat, b: nat)
    requires a % 16 == 0 && b % 16 == 0
    ensures (a + b + 16) % 16 == 0
  {
  }

  /** Where each piece of the authenticated string is found again. */
  lemma MacInputParts(aad: seq<byte>, ct: seq<byte>)
    ensures var m, n := MacInput(aad, ct), |aad| + Pad16(|aad|);
            && n + |ct| <= |m| - 16
            && m[|m| - 8..] == LittleEndian(|ct|, 8)
            && m[|m| - 16..|m| - 8] == LittleEndian(|aad|, 8)
            && m[..|aad|] == aad
            && m[n..n + |ct|] == ct
  {
  }

  /** The bytes between the pieces are zero. */
  lemma MacInputPadding(aad: seq<byte>, ct: seq<byte>, i: nat)
    requires var n := |aad| + Pad16(|aad|);
             |aad| <= i < n || n + |ct| <= i < n + |ct| + Pad16(|ct|)
    ensures i < |MacInput(aad, ct)| && MacInput(aad, ct)[i] == 0
  {
  }

  /** The authenticated string determines the associated data and the ciphertext. */
  lemma MacInputInjective(aad: seq<byte>, ct: seq<byte>, aad': seq<byte>, ct': seq<byte>)
    requires |aad| < TWO_64 && |ct| < TWO_64 && |aad'| < TWO_64 && |ct'| < TWO_64
    ensures MacInput(aad, ct) == MacInput(aad', ct') <==> aad == aad' && ct == ct'
  {
    if MacInput(aad, ct) == MacInput(aad', ct') {
      MacInputParts(aad, ct);
      MacInputParts(aad', ct');
      Widths();
      LittleEndianInjective(|ct|, |ct'|, 8);
      LittleEndianInjective(|aad|, |aad'|, 8);
    }
  }

  /** The blocks determine the message. */
  lemma {:induction false} CoefficientsInjective(m: seq<byte>, m': seq<byte>)
    requires |m| % 16 == 0 && |m'| % 16 == 0
    requires Poly1305.Coefficients(m) == Poly1305.Coefficients(m')
    ensures m == m'
  {
    if m != [] && m' != [] {
      var c, c' := Poly1305.Coefficients(m), Poly1305.Coefficients(m');
      assert c[0] == c'[0] && c[1..] == c'[1..];
      BlockInjective(m[..16], m'[..16]);
      CoefficientsInjective(m[16..], m'[16..]);
      assert m == m[..16] + m[16..] && m' == m'[..16] + m'[16..];
    }
  }

  lemma BlockInjective(b: seq<byte>, b': seq<byte>)
    requires |b| == |b'| && FromLittleEndian(b + [1]) == FromLittleEndian(b' + [1])
    ensures b == b'
  {
    Poly1305.AppendedOne(b);
    Poly1305.AppendedOne(b');
    FromLittleEndianInjective(b, b');
  }

  lemma CoefficientsSeparate(aad: seq<byte>, ct: seq<byte>, aad': seq<byte>, ct': seq<byte>)
    requires |aad| < TWO_64 && |ct| < TWO_64 && |aad'| < TWO_64 && |ct'| < TWO_64
    requires aad != aad' || ct != ct'
    ensures Poly1305.Coefficients(MacInput(aad, ct)) != Poly1305.Coefficients(MacInput(aad', ct'))
  {
    MacInputBlocks(aad, ct);
    MacInputBlocks(aad', ct');
    var m, m' := MacInput(aad, ct), MacInput(aad', ct');
    if Poly1305.Coefficients(m) == Poly1305.Coefficients(m') {
      CoefficientsInjective(m, m');
      MacInputInjective(aad, ct, aad', ct');
    }
  }

  predicate SameLow128(x: nat, y: nat) { (x - y) % Poly1305.TWO_128 == 0 }

  /**
   Different (associated data, ciphertext) pairs have one tag exactly when two polynomials, which
   are then different, agree at the secret point up to a multiple of 2^128.
   */
  lemma SharedTag(key: seq<byte>, nonce: seq<byte>, aad: seq<byte>, ct: seq<byte>, aad': seq<byte>, ct': seq<byte>)
    requires Sized(key, nonce)
    requires |aad| < TWO_64 && |ct| < TWO_64 && |aad'| < TWO_64 && |ct'| < TWO_64
    requires aad != aad' || ct != ct'
    ensures var r := Poly1305.Multiplier(OneTimeKey(key, nonce));
            var c := Poly1305.Coefficients(MacInput(aad, ct));
            var c' := Poly1305.Coefficients(MacInput(aad', ct'));
            && c != c'
            && (TagOf(key, nonce, aad, ct) == TagOf(key, nonce, aad', ct') <==>
                SameLow128(Poly1305.Polynomial(r, c) % Poly1305.P, Poly1305.Polynomial(r, c') % Poly1305.P))
  {
    CoefficientsSeparate(aad, ct, aad', ct');
    SharedPolyTag(OneTimeKey(key, nonce), MacInput(aad, ct), MacInput(aad', ct'));
  }

  lemma SharedPolyTag(k: seq<byte>, m: seq<byte>, m': seq<byte>)
    requires |k| == 32
    ensures var r := Poly1305.Multiplier(k);
            Poly1305.Tag(k, m) == Poly1305.Tag(k, m') <==>
            SameLow128(Poly1305.Polynomial(r, Poly1305.Coefficients(m)) % Poly1305.P,
                       Poly1305.Polynomial(r, Poly1305.Coefficients(m')) % Poly1305.P)
  {
    var r := Poly1305.Multiplier(k);
    SameTagValue(k, m, m');
    SameSum(Poly1305.Polynomial(r, Poly1305.Coefficients(m)), Poly1305.Polynomial(r, Poly1305.Coefficients(m')),
            Poly1305.Summand(k), Poly1305.TagValue(k, m), Poly1305.TagValue(k, m'));
  }

  lemma SameSum(x: nat, y: nat, s: nat, t: nat, u: nat)
    requires t == (x % Poly1305.P + s) % Poly1305.TWO_128 && u == (y % Poly1305.P + s) % Poly1305.TWO_128
    ensures t == u <==> SameLow128(x % Poly1305.P, y % Poly1305.P)
  {
    SameResidue(x % Poly1305.P, y % Poly1305.P, s);
  }

  lemma SameTagValue(k: seq<byte>, m: seq<byte>, m': seq<byte>)
    requires |k| == 32
    ensures Poly1305.Tag(k, m) == Poly1305.Tag(k, m') <==> Poly1305.TagValue(k, m) == Poly1305.TagValue(k, m')
  {
    Poly1305.TagIs(k, m);
    Poly1305.TagIs(k, m');
    if Poly1305.Tag(k, m) == Poly1305.Tag(k, m') {
      Poly1305.Pow256Of15();
      LittleEndianInjective(Poly1305.TagValue(k, m), Poly1305.TagValue(k, m'), 16);
    }
  }

  lemma SameResidue(x: nat, y: nat, s: nat)
    ensures (x + s) % Poly1305.TWO_128 == (y + s) % Poly1305.TWO_128 <==> SameLow128(x, y)
  {
    var q := (x + s) / Poly1305.TWO_128 - (y + s) / Poly1305.TWO_128;
    assert x - y == q * Poly1305.TWO_128 + (x + s) % Poly1305.TWO_128 - (y + s) % Poly1305.TWO_128;
  }

  /**
   No ChaCha20 state is used twice: not by two blocks of one message (the one-time key is
   block 0), and not by any blocks of two messages under different nonces.
   */
  lemma StatesFresh(key: seq<byte>, nonce: seq<byte>, block: u32, nonce': seq<byte>, block': u32)
    requires Sized(key, nonce) && |nonce'| == 12
    requires block != block' || nonce != nonce'
    ensures ChaCha20.Apply(ChaCha20.Initial(key, block, nonce), ChaCha20.Schedule()) !=
            ChaCha20.Apply(ChaCha20.Initial(key, block', nonce'), ChaCha20.Schedule())
  {
    ChaCha20.RoundsSeparate(key, block, nonce, key, block', nonce');
  }

  // ---------------------------------------------------------------------------------------
  // The kernel's form
  // ---------------------------------------------------------------------------------------

  /** One keystream block over `take` bytes of `data` from `pos` on. */
  method XorInto(data: seq<byte>, pos: nat, take: nat, ks: seq<byte>, out: array<byte>)
    requires pos + take <= |data| <= out.Length && take <= |ks|
    modifies out
    ensures forall j :: 0 <= j < out.Length ==>
              out[j] == if pos <= j < pos + take then data[j] ^ ks[j - pos] else old(out[j])
  {
    for i := 0 to take
      invariant forall j :: 0 <= j < out.Length ==>
                  out[j] == if pos <= j < pos + i then data[j] ^ ks[j - pos] else old(out[j])
    {
      out[pos + i] := data[pos + i] ^ ks[i];
    }
  }

  /** A keystream block; `used` grows by its number. */
  method NextBlock(key: seq<byte>, counter: u32, nonce: seq<byte>, ghost before: seq<nat>)
    returns (ks: seq<byte>, ghost used: seq<nat>)
    requires Sized(key, nonce)
    ensures ks == ChaCha20.Block(key, counter, nonce) && used == before + [counter]
  {
    ks := ChaCha20.KeystreamBlock(key, counter, nonce);
    used := before + [counter];
  }

  /** Block `counter` of the keystream over its part of `data`; the rest of `out` stays. */
  method CryptBlock(key: seq<byte>, nonce: seq<byte>, counter: u32, data: seq<byte>, pos: nat, out: array<byte>,
                    ghost before: seq<nat>)
    returns (take: nat, ghost used: seq<nat>)
    requires Sized(key, nonce) && pos < |data| <= out.Length
    modifies out
    ensures used == before + [counter]
    ensures take == if |data| - pos < 64 then |data| - pos else 64
    ensures var ks := ChaCha20.Block(key, counter, nonce);
            forall j :: 0 <= j < out.Length ==>
              out[j] == if pos <= j < pos + take then data[j] ^ ks[j - pos] else old(out[j])
  {
    var ks;
    ks, used := NextBlock(key, counter, nonce, before);
    take := if |data| - pos < 64 then |data| - pos else 64;
    XorInto(data, pos, take, ks, out);
  }

  lemma CryptAt(key: seq<byte>, nonce: seq<byte>, counter: u32, data: seq<byte>, j: nat)
    requires Sized(key, nonce) && j < |data| <= MAX_LEN
    requires 1 <= counter && 64 * (counter - 1) <= j < 64 * counter
    ensures Crypt(key, nonce, data)[j] == data[j] ^ ChaCha20.Block(key, counter, nonce)[j - 64 * (counter - 1)]
  {
    InBlock(j, counter - 1);
  }

  lemma InBlock(j: nat, n: nat)
    requires 64 * n <= j < 64 * n + 64
    ensures j / 64 == n && j % 64 == j - 64 * n
  {
  }

  /** The first `pos` bytes of `out` are encrypted, the others as they were. */
  predicate CryptedUpTo(key: seq<byte>, nonce: seq<byte>, data: seq<byte>, pos: nat, was: seq<byte>, now: seq<byte>)
    requires Sized(key, nonce) && |data| <= |was| == |now|
  {
    |data| <= MAX_LEN ==>
      forall j :: 0 <= j < |now| ==>
        now[j] == if j < pos && j < |data| then Crypt(key, nonce, data)[j] else was[j]
  }

  lemma CryptedMore(key: seq<byte>, nonce: seq<byte>, counter: u32, data: seq<byte>, pos: nat, take: nat,
                    was: seq<byte>, mid: seq<byte>, now: seq<byte>)
    requires Sized(key, nonce) && |data| <= |was| == |mid| == |now|
    requires 1 <= counter && pos == 64 * (counter - 1) && pos + take <= |data| && take <= 64
    requires CryptedUpTo(key, nonce, data, pos, was, mid)
    requires var ks := ChaCha20.Block(key, counter, nonce);
             forall j :: 0 <= j < |now| ==>
               now[j] == if pos <= j < pos + take then data[j] ^ ks[j - pos] else mid[j]
    ensures CryptedUpTo(key, nonce, data, pos + take, was, now)
  {
    if |data| <= MAX_LEN {
      forall j | pos <= j < pos + take
        ensures now[j] == Crypt(key, nonce, data)[j]
      {
        CryptAt(key, nonce, counter, data, j);
      }
    }
  }

  /**
   Lay the keystream over `data`, block by block, into the front of `out`. The 32-bit block counter
   overflows, which stops the kernel, exactly when the data is longer than the limit.
   */
  method CryptInto(key: seq<byte>, nonce: seq<byte>, data: seq<byte>, out: array<byte>)
    returns (panicked: bool, ghost used: seq<nat>)
    requires Sized(key, nonce) && |data| <= out.Length
    modifies out
    ensures panicked <==> |data| > MAX_LEN
    ensures !panicked ==> out[..|data|] == Crypt(key, nonce, data)
    ensures !panicked ==> out[|data|..] == old(out[|data|..])
    ensures !panicked ==> |used| == (|data| + 63) / 64 && forall i :: 0 <= i < |used| ==> used[i] == 1 + i
  {
    var counter: u32 := 1;
    var pos := 0;
    used := [];
    while pos < |data|
      invariant 0 <= pos <= |data|
      invariant 1 <= counter && pos <= 64 * (counter - 1)
      invariant pos < |data| ==> pos == 64 * (counter - 1)
      invariant |used| == counter - 1 && 64 * |used| < |data| + 64 && forall i :: 0 <= i < |used| ==> used[i] == 1 + i
      invariant CryptedUpTo(key, nonce, data, pos, old(out[..]), out[..])
    {
      if counter + 1 == TWO_32 {
        panicked := true;
        return;
      }
      ghost var mid := out[..];
      var take;
      take, used := CryptBlock(key, nonce, counter, data, pos, out, used);
      CryptedMore(key, nonce, counter, data, pos, take, old(out[..]), mid, out[..]);
      counter := counter + 1;
      pos := pos + take;
    }
    BlockCount(|data|, |used|);
    panicked := false;
  }

  lemma BlockCount(len: nat, n: nat)
    requires len <= 64 * n < len + 64
    ensures n == (len + 63) / 64
  {
  }

  /** What a copy makes of a buffer that holds `front` and then zeroes, leaving `pad` of the zeroes between them. */
  lemma Placed(was: seq<byte>, now: seq<byte>, front: seq<byte>, pad: nat, src: seq<byte>)
    requires |front| + pad + |src| <= |was| && was == front + Zeros(|was| - |front|)
    requires var off := |front| + pad; now == was[..off] + src + was[off + |src|..]
    ensures now == front + Zeros(pad) + src + Zeros(|was| - |front| - pad - |src|)
  {
  }

  /** Copy the next piece of a message after `pad` zeroes. */
  method Place(dst: array<byte>, off: nat, src: seq<byte>, ghost front: seq<byte>, ghost pad: nat)
    requires off == |front| + pad && off + |src| <= dst.Length
    requires dst[..] == front + Zeros(dst.Length - |front|)
    modifies dst
    ensures dst[..] == front + Zeros(pad) + src + Zeros(dst.Length - off - |src|)
  {
    Copy(dst, off, src);
    Placed(old(dst[..]), dst[..], front, pad, src);
  }

  lemma NoZeros(a: seq<byte>)
    ensures a + Zeros(0) == a
  {
  }

  /** The zero-filled buffer with the four pieces copied to their offsets. */
  method BuildMacInput(aad: seq<byte>, ct: seq<byte>) returns (m: seq<byte>)
    ensures m == MacInput(aad, ct)
  {
    var padA, padC := Pad16(|aad|), Pad16(|ct|);
    var macLen := |aad| + padA + |ct| + padC + 8 + 8;
    var buf := new byte[macLen](_ => 0);
    var off := 0;
    Place(buf, off, aad, [], 0);
    off := off + |aad| + padA;
    NoZeros([]);
    ghost var front := [] + aad;
    Place(buf, off, ct, front, padA);
    off := off + |ct| + padC;
    front := front + Zeros(padA) + ct;
    Place(buf, off, LittleEndian(|aad|, 8), front, padC);
    off := off + 8;
    front := front + Zeros(padC) + LittleEndian(|aad|, 8);
    Place(buf, off, LittleEndian(|ct|, 8), front, 0);
    NoZeros(front);
    NoZeros(front + LittleEndian(|ct|, 8));
    m := buf[..];
    assert [] + aad == aad;
  }

  /**
   Encrypt into the front of `ciphertext` and authenticate the whole of it. The keystream blocks used
   are 0, for the authenticator's key, and then 1, 2, ... for the data, each once.
   */
  method Seal(key: seq<byte>, nonce: seq<byte>, aad: seq<byte>, plaintext: seq<byte>, ciphertext: array<byte>)
    returns (tag: seq<byte>, ghost used: seq<nat>)
    requires Sized(key, nonce) && |plaintext| <= MAX_LEN && |plaintext| <= ciphertext.Length
    modifies ciphertext
    ensures ciphertext[..|plaintext|] == Crypt(key, nonce, plaintext)
    ensures ciphertext[|plaintext|..] == old(ciphertext[|plaintext|..])
    ensures tag == Poly1305.Tag(ChaCha20.Block(key, 0, nonce)[..32], MacInput(aad, ciphertext[..]))
    ensures |used| == 1 + (|plaintext| + 63) / 64 && forall i :: 0 <= i < |used| ==> used[i] == i
  {
    var block0;
    ghost var first, others;
    block0, first := NextBlock(key, 0, nonce, []);
    var panicked;
    panicked, others := CryptInto(key, nonce, plaintext, ciphertext);
    used := first + others;
    var m := BuildMacInput(aad, ciphertext[..]);
    tag := Poly1305.Authenticate(block0[..32], m);
  }

  /** Accept exactly the right tag; decrypt only then, and touch nothing otherwise. */
  method Open(key: seq<byte>, nonce: seq<byte>, aad: seq<byte>, ciphertext: seq<byte>, tag: seq<byte>,
              plaintext: array<byte>)
    returns (ok: bool, ghost used: seq<nat>)
    requires Sized(key, nonce) && |tag| == 16
    requires |ciphertext| <= MAX_LEN && |ciphertext| <= plaintext.Length
    modifies plaintext
    ensures ok <==> tag == Poly1305.Tag(ChaCha20.Block(key, 0, nonce)[..32], MacInput(aad, ciphertext))
    ensures ok ==> plaintext[..|ciphertext|] == Crypt(key, nonce, ciphertext)
    ensures ok ==> plaintext[|ciphertext|..] == old(plaintext[|ciphertext|..])
    ensures !ok ==> plaintext[..] == old(plaintext[..])
    ensures |used| == 1 + (if ok then (|ciphertext| + 63) / 64 else 0) && forall i :: 0 <= i < |used| ==> used[i] == i
  {
    var block0;
    block0, used := NextBlock(key, 0, nonce, []);
    var m := BuildMacInput(aad, ciphertext);
    var expected := Poly1305.Authenticate(block0[..32], m);
    ok := ConstantTimeEqual(expected, tag);
    if ok {
      var panicked;
      ghost var others;
      panicked, others := CryptInto(key, nonce, ciphertext, plaintext);
      used := used + others;
    }
  }

  /** What was sealed opens, and opens to the plaintext. */
  method SealThenOpen(key: seq<byte>, nonce: seq<byte>, aad: seq<byte>, plaintext: seq<byte>)
    returns (ok: bool, recovered: seq<byte>)
    requires Sized(key, nonce) && |plaintext| <= MAX_LEN
    ensures ok && recovered == plaintext
  {
    var ct := new byte[|plaintext|](_ => 0);
    var pt := new byte[|plaintext|](_ => 0);
    var tag;
    ghost var used, again;
    tag, used := Seal(key, nonce, aad, plaintext, ct);
    var sealed := ct[..];
    assert sealed == ct[..|plaintext|];
    CryptInvolution(key, nonce, plaintext);
    ok, again := Open(key, nonce, aad, sealed, tag, pt);
    recovered := pt[..];
    assert recovered == pt[..|sealed|];
  }
}
