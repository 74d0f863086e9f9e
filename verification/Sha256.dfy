/**
 SHA-256 and HMAC-SHA-256, kernel/src/crypto.rs.

 The specification is FIPS 180-4: the padding of section 5.1.1, and the compression of section
 6.2.2 folded over the padded blocks. The streaming hasher is shown to compute it however the
 message is cut into pieces. HMAC is section 2 of RFC 2104.
 */
module Sha256 {
  import opened Bytes

  type word = bv32

  type State = s: seq<word> | |s| == 8 witness seq(8, _ => 0)

  /** The round constants, eight to a row. */
  const K: seq<seq<word>> := [
    [0x428a2f98, 0x71374491, 0xb5c0fbcf, 0xe9b5dba5, 0x3956c25b, 0x59f111f1, 0x923f82a4, 0xab1c5ed5],
    [0xd807aa98, 0x12835b01, 0x243185be, 0x550c7dc3, 0x72be5d74, 0x80deb1fe, 0x9bdc06a7, 0xc19bf174],
    [0xe49b69c1, 0xefbe4786, 0x0fc19dc6, 0x240ca1cc, 0x2de92c6f, 0x4a7484aa, 0x5cb0a9dc, 0x76f988da],
    [0x983e5152, 0xa831c66d, 0xb00327c8, 0xbf597fc7, 0xc6e00bf3, 0xd5a79147, 0x06ca6351, 0x14292967],
    [0x27b70a85, 0x2e1b2138, 0x4d2c6dfc, 0x53380d13, 0x650a7354, 0x766a0abb, 0x81c2c92e, 0x92722c85],
    [0xa2bfe8a1, 0xa81a664b, 0xc24b8b70, 0xc76c51a3, 0xd192e819, 0xd6990624, 0xf40e3585, 0x106aa070],
    [0x19a4c116, 0x1e376c08, 0x2748774c, 0x34b0bcb5, 0x391c0cb3, 0x4ed8aa4a, 0x5b9cca4f, 0x682e6ff3],
    [0x748f82ee, 0x78a5636f, 0x84c87814, 0x8cc70208, 0x90befffa, 0xa4506ceb, 0xbef9a3f7, 0xc67178f2]
  ]

  function Constant(t: nat): word
    requires t < 64
  {
    K[t / 8][t % 8]
  }

  const H0: State := [
    0x6a09e667, 0xbb67ae85, 0x3c6ef372, 0xa54ff53a, 0x510e527f, 0x9b05688c, 0x1f83d9ab, 0x5be0cd19
  ]

  // ---------------------------------------------------------------------------------------
  // Section 6.2.2 of FIPS 180-4: one block
  // ---------------------------------------------------------------------------------------

  function BigSigma0(x: word): word { x.RotateRight(2) ^ x.RotateRight(13) ^ x.RotateRight(22) }
  function BigSigma1(x: word): word { x.RotateRight(6) ^ x.RotateRight(11) ^ x.RotateRight(25) }
  function SmallSigma0(x: word): word { x.RotateRight(7) ^ x.RotateRight(18) ^ (x >> 3) }
  function SmallSigma1(x: word): word { x.RotateRight(17) ^ x.RotateRight(19) ^ (x >> 10) }
  function Ch(x: word, y: word, z: word): word { (x & y) ^ (!x & z) }
  function Maj(x: word, y: word, z: word): word { (x & y) ^ (x & z) ^ (y & z) }

  function BeWord(b0: byte, b1: byte, b2: byte, b3: byte): word
  {
    ((b0 as word) << 24) | ((b1 as word) << 16) | ((b2 as word) << 8) | (b3 as word)
  }

  function WordBytes(w: word): (b: seq<byte>)
    ensures |b| == 4
  {
    [((w >> 24) & 0xff) as byte, ((w >> 16) & 0xff) as byte, ((w >> 8) & 0xff) as byte, (w & 0xff) as byte]
  }

  function Plus(a: word, b: word): word { a + b }

  function Sum4(a: word, b: word, c: word, d: word): word { a + b + c + d }

  /** The message schedule. */
  function W(block: seq<byte>, t: nat): word
    requires |block| == 64 && t < 64
  {
    if t < 16 then BeWord(block[4 * t], block[4 * t + 1], block[4 * t + 2], block[4 * t + 3])
    else Sum4(W(block, t - 16), SmallSigma0(W(block, t - 15)), W(block, t - 7), SmallSigma1(W(block, t - 2)))
  }

  function Temp1(e: word, f: word, g: word, h: word, k: word, w: word): word
  {
    Plus(Plus(Plus(Plus(h, BigSigma1(e)), Ch(e, f, g)), k), w)
  }

  function Temp2(a: word, b: word, c: word): word { Plus(BigSigma0(a), Maj(a, b, c)) }

  /** One round on the eight working variables a, b, ..., h. */
  function Round(v: State, k: word, w: word): State
  {
    var t1, t2 := Temp1(v[4], v[5], v[6], v[7], k, w), Temp2(v[0], v[1], v[2]);
    [Plus(t1, t2), v[0], v[1], v[2], Plus(v[3], t1), v[4], v[5], v[6]]
  }

  function Sum(s: State, t: State): State
  {
    seq(8, i requires 0 <= i < 8 => Plus(s[i], t[i]))
  }

  /** The working variables after `t` rounds; after the last round, stage 65 adds the incoming state. */
  function Stage(s: State, block: seq<byte>, t: nat): State
    requires |block| == 64 && t <= 65
  {
    if t == 0 then s
    else if t <= 64 then Round(Stage(s, block, t - 1), Constant(t - 1), W(block, t - 1))
    else Sum(s, Stage(s, block, 64))
  }

  lemma StageStep(s: State, block: seq<byte>, t: nat, v: State, k: word, w: word)
    requires |block| == 64 && t < 64 && v == Stage(s, block, t) && k == Constant(t) && w == W(block, t)
    ensures Stage(s, block, t + 1) == Round(v, k, w)
  {
  }

  function Compress(s: State, block: seq<byte>): State
    requires |block| == 64
  {
    Stage(s, block, 65)
  }

  // ---------------------------------------------------------------------------------------
  // Sections 5.1.1 and 6.2 of FIPS 180-4: padding and folding
  // ---------------------------------------------------------------------------------------

  /** Compress the full 64-byte blocks one after another; a short rest is not touched. */
  function Fold(s: State, m: seq<byte>): State
    decreases |m|
  {
    if |m| < 64 then s else Fold(Compress(s, m[..64]), m[64..])
  }

  /** The number of zero bytes: the smallest that completes a block with the 1 bit and the length. */
  function PadZeros(n: nat): nat { (55 - n) % 64 }

  /** A 1 bit, zeroes, and the length in bits as 64 big-endian bits. */
  function Pad(m: seq<byte>): (p: seq<byte>)
    ensures |p| % 64 == 0
  {
    PadCompletes(|m|);
    m + [0x80] + Zeros(PadZeros(|m|)) + BigEndian(8 * |m|, 8)
  }

  lemma PadCompletes(n: nat)
    ensures (n + 1 + PadZeros(n) + 8) % 64 == 0
  {
  }

  /** The words one after another, each big-endian. */
  function Serialize(s: seq<word>): (b: seq<byte>)
    ensures |b| == 4 * |s|
  {
    if s == [] then [] else Serialize(s[..|s| - 1]) + WordBytes(s[|s| - 1])
  }

  /** Byte `i` of the final state, written out. */
  function DigestByte(m: seq<byte>, i: nat): byte
    requires i < 32
  {
    Serialize(Fold(H0, Pad(m)))[i]
  }

  function Digest(m: seq<byte>): Bytes32
  {
    seq(32, i requires 0 <= i < 32 => DigestByte(m, i))
  }

  lemma DigestIs(m: seq<byte>)
    ensures Digest(m) == Serialize(Fold(H0, Pad(m)))
  {
  }

  lemma {:induction false} FoldAppend(s: State, a: seq<byte>, b: seq<byte>)
    requires |a| % 64 == 0
    ensures Fold(s, a + b) == Fold(Fold(s, a), b)
    decreases |a|
  {
    if a == [] {
      assert a + b == b;
    } else {
      FoldAppend(Compress(s, a[..64]), a[64..], b);
      DropBlock(a, b);
    }
  }

  lemma DropBlock(a: seq<byte>, b: seq<byte>)
    requires |a| >= 64
    ensures (a + b)[..64] == a[..64] && (a + b)[64..] == a[64..] + b
  {
  }

  lemma FoldBlock(s: State, a: seq<byte>, block: seq<byte>)
    requires |a| % 64 == 0 && |block| == 64
    ensures Fold(s, a + block) == Compress(Fold(s, a), block)
  {
    FoldAppend(s, a, block);
    assert block[..64] == block && block[64..] == [];
  }

  /** The bytes after the last full block. */
  function Rest(m: seq<byte>): (r: seq<byte>)
    ensures |r| == |m| % 64
  {
    m[|m| - |m| % 64..]
  }

  function FullBlocks(m: seq<byte>): (a: seq<byte>)
    ensures |a| % 64 == 0 && a + Rest(m) == m
  {
    WholeBlocks(|m|);
    m[..|m| - |m| % 64]
  }

  lemma WholeBlocks(n: nat)
    ensures (n - n % 64) % 64 == 0
  {
  }

  lemma RestLength(n: nat, k: nat)
    requires n % 64 + k <= 64
    ensures (n + k) % 64 == if n % 64 + k == 64 then 0 else n % 64 + k
  {
  }

  lemma RestAppend(m: seq<byte>, piece: seq<byte>)
    requires |m| % 64 + |piece| < 64
    ensures Rest(m + piece) == Rest(m) + piece
  {
    RestLength(|m|, |piece|);
    DropPrefix(m, piece, |m| - |m| % 64);
  }

  lemma DropPrefix(m: seq<byte>, piece: seq<byte>, k: nat)
    requires k <= |m|
    ensures (m + piece)[k..] == m[k..] + piece
  {
  }

  /** A piece that leaves the last block short changes only the rest. */
  lemma ShortBlock(s: State, m: seq<byte>, piece: seq<byte>)
    requires |m| % 64 + |piece| < 64
    ensures Rest(m + piece) == Rest(m) + piece
    ensures Fold(s, m + piece) == Fold(s, m)
  {
    RestAppend(m, piece);
    FoldRest(s, FullBlocks(m), Rest(m), piece);
  }

  lemma FoldRest(s: State, a: seq<byte>, rest: seq<byte>, piece: seq<byte>)
    requires |a| % 64 == 0
    ensures |rest| + |piece| < 64 ==> Fold(s, a + rest + piece) == Fold(s, a + rest)
    ensures |rest| < 64 && |rest| + |piece| == 64 ==>
              Fold(s, a + rest + piece) == Compress(Fold(s, a + rest), rest + piece)
  {
    FoldAppend(s, a, rest);
    FoldAppend(s, a, rest + piece);
    assert a + rest + piece == a + (rest + piece);
    if |rest| + |piece| == 64 {
      FoldBlock(s, a, rest + piece);
    }
  }

  /** A piece that completes the last block. */
  lemma FullBlock(s: State, m: seq<byte>, piece: seq<byte>)
    requires |m| % 64 + |piece| == 64
    ensures Rest(m + piece) == []
    ensures Fold(s, m + piece) == Compress(Fold(s, m), Rest(m) + piece)
  {
    RestLength(|m|, |piece|);
    FoldRest(s, FullBlocks(m), Rest(m), piece);
  }

  /** Close a message whose last, short block is `rest`: one block if the length still fits, two otherwise. */
  function Close(s: State, rest: seq<byte>, len: seq<byte>): State
    requires |rest| < 64 && |len| == 8
  {
    if |rest| < 56 then Compress(s, rest + [0x80] + Zeros(55 - |rest|) + len)
    else Compress(Compress(s, rest + [0x80] + Zeros(63 - |rest|)), Zeros(56) + len)
  }

  lemma FoldPad(s: State, m: seq<byte>)
    ensures Fold(s, Pad(m)) == Close(Fold(s, m), Rest(m), BigEndian(8 * |m|, 8))
  {
    var a, rest, len := FullBlocks(m), Rest(m), BigEndian(8 * |m|, 8);
    FoldAppend(s, a, rest);
    assert Fold(s, m) == Fold(s, a);
    if |rest| < 56 {
      var b := rest + [0x80] + Zeros(55 - |rest|) + len;
      PadShort(m, a, rest);
      FoldBlock(s, a, b);
      assert Close(Fold(s, m), rest, len) == Compress(Fold(s, m), b);
    } else {
      var b, c := rest + [0x80] + Zeros(63 - |rest|), Zeros(56) + len;
      PadLong(m, a, rest);
      FoldTwo(s, a, b, c);
      assert Close(Fold(s, m), rest, len) == Compress(Compress(Fold(s, m), b), c);
    }
  }

  lemma DigestCloses(m: seq<byte>)
    ensures Digest(m) == Serialize(Close(Fold(H0, m), Rest(m), BigEndian(8 * |m|, 8)))
  {
    FoldPad(H0, m);
    DigestIs(m);
  }

  lemma PadShort(m: seq<byte>, a: seq<byte>, rest: seq<byte>)
    requires m == a + rest && |rest| == |m| % 64 < 56
    ensures Pad(m) == a + (rest + [0x80] + Zeros(55 - |rest|) + BigEndian(8 * |m|, 8))
  {
    PadZerosOf(|m|);
    Regroup(a, rest, Zeros(55 - |rest|), [], BigEndian(8 * |m|, 8));
  }

  lemma PadLong(m: seq<byte>, a: seq<byte>, rest: seq<byte>)
    requires m == a + rest && |rest| == |m| % 64 >= 56
    ensures Pad(m) == a + (rest + [0x80] + Zeros(63 - |rest|)) + (Zeros(56) + BigEndian(8 * |m|, 8))
  {
    PadZerosOf(|m|);
    assert Zeros(119 - |rest|) == Zeros(63 - |rest|) + Zeros(56);
    Regroup(a, rest, Zeros(63 - |rest|), Zeros(56), BigEndian(8 * |m|, 8));
  }

  lemma Regroup(a: seq<byte>, rest: seq<byte>, y: seq<byte>, z: seq<byte>, len: seq<byte>)
    ensures a + rest + [0x80] + y + len == a + (rest + [0x80] + y + len)
    ensures a + rest + [0x80] + (y + z) + len == a + (rest + [0x80] + y) + (z + len)
  {
  }

  lemma FoldTwo(s: State, a: seq<byte>, b: seq<byte>, c: seq<byte>)
    requires |a| % 64 == 0 && |b| == 64 && |c| == 64
    ensures Fold(s, a + b + c) == Compress(Compress(Fold(s, a), b), c)
  {
    FoldBlock(s, a, b);
    assert (|a| + 64) % 64 == 0;
    FoldBlock(s, a + b, c);
  }

  lemma PadZerosOf(n: nat)
    ensures PadZeros(n) == if n % 64 < 56 then 55 - n % 64 else 119 - n % 64
  {
  }

  // ---------------------------------------------------------------------------------------
  // The kernel's compression, in place
  // ---------------------------------------------------------------------------------------

  method Expand(block: seq<byte>) returns (w: array<word>)
    requires |block| == 64
    ensures fresh(w) && w.Length == 64
    ensures forall t :: 0 <= t < 64 ==> w[t] == W(block, t)
  {
    w := new word[64](_ => 0);
    for t := 0 to 16
      invariant forall j :: 0 <= j < t ==> w[j] == W(block, j)
    {
      w[t] := BeWord(block[4 * t], block[4 * t + 1], block[4 * t + 2], block[4 * t + 3]);
    }
    for t := 16 to 64
      invariant forall j :: 0 <= j < t ==> w[j] == W(block, j)
    {
      ExpandOne(block, w, t);
    }
  }

  method ExpandOne(block: seq<byte>, w: array<word>, t: nat)
    requires |block| == 64 && w.Length == 64 && 16 <= t < 64
    requires w[t - 16] == W(block, t - 16) && w[t - 15] == W(block, t - 15)
    requires w[t - 7] == W(block, t - 7) && w[t - 2] == W(block, t - 2)
    modifies w
    ensures w[t] == W(block, t)
    ensures forall j :: 0 <= j < 64 && j != t ==> w[j] == old(w[j])
  {
    w[t] := Sum4(w[t - 16], SmallSigma0(w[t - 15]), w[t - 7], SmallSigma1(w[t - 2]));
  }

  method ComputeTemp1(e: word, f: word, g: word, h: word, k: word, w: word) returns (t1: word)
    ensures t1 == Temp1(e, f, g, h, k, w)
  {
    var s1 := e.RotateRight(6) ^ e.RotateRight(11) ^ e.RotateRight(25);
    var ch := (e & f) ^ (!e & g);
    assert s1 == BigSigma1(e) && ch == Ch(e, f, g);
    t1 := Plus(Plus(Plus(Plus(h, s1), ch), k), w);
  }

  method ComputeTemp2(a: word, b: word, c: word) returns (t2: word)
    ensures t2 == Temp2(a, b, c)
  {
    var s0 := a.RotateRight(2) ^ a.RotateRight(13) ^ a.RotateRight(22);
    var maj := (a & b) ^ (a & c) ^ (b & c);
    assert s0 == BigSigma0(a) && maj == Maj(a, b, c);
    t2 := Plus(s0, maj);
  }

  /** One round: two new working variables, and the others passed on. */
  method RunRound(a: word, b: word, c: word, d: word, e: word, f: word, g: word, h: word, k: word, w: word,
                  ghost v: State)
    returns (a': word, b': word, c': word, d': word, e': word, f': word, g': word, h': word)
    requires v == [a, b, c, d, e, f, g, h]
    ensures Round(v, k, w) == [a', b', c', d', e', f', g', h']
  {
    assert v[0] == a && v[1] == b && v[2] == c && v[3] == d && v[4] == e && v[5] == f && v[6] == g && v[7] == h;
    var t1 := ComputeTemp1(e, f, g, h, k, w);
    var t2 := ComputeTemp2(a, b, c);
    h', g', f' := g, f, e;
    e' := Plus(d, t1);
    d', c', b' := c, b, a;
    a' := Plus(t1, t2);
  }

  method CompressInPlace(state: array<word>, block: seq<byte>)
    requires state.Length == 8 && |block| == 64
    modifies state
    ensures state[..] == Compress(old(state[..]), block)
  {
    var w := Expand(block);
    var a, b, c, d := state[0], state[1], state[2], state[3];
    var e, f, g, h := state[4], state[5], state[6], state[7];
    ghost var init: State, v: State := state[..], state[..];
    for t := 0 to 64
      invariant forall j :: 0 <= j < 64 ==> w[j] == W(block, j)
      invariant state[..] == init && v == Stage(init, block, t) && v == [a, b, c, d, e, f, g, h]
    {
      StageStep(init, block, t, v, Constant(t), w[t]);
      a, b, c, d, e, f, g, h := RunRound(a, b, c, d, e, f, g, h, Constant(t), w[t], v);
      v := Stage(init, block, t + 1);
    }
    AddInPlace(state, [a, b, c, d, e, f, g, h]);
    assert Compress(init, block) == Sum(init, v);
  }

  method AddInPlace(state: array<word>, v: State)
    requires state.Length == 8
    modifies state
    ensures state[..] == Sum(old(state[..]), v)
  {
    for i := 0 to 8
      invariant forall j :: 0 <= j < i ==> state[j] == Plus(old(state[j]), v[j])
      invariant forall j :: i <= j < 8 ==> state[j] == old(state[j])
    {
      state[i] := Plus(state[i], v[i]);
    }
  }

  // ---------------------------------------------------------------------------------------
  // The streaming hasher
  // ---------------------------------------------------------------------------------------

  /** The longest message whose length in bits fits the 64-bit counter. */
  const MAX_LEN: nat := 0x1FFF_FFFF_FFFF_FFFF

  class Hasher {
    const state: array<word>
    const buf: array<byte>
    var bufLen: nat
    var totalLen: nat
    ghost var message: seq<byte>

    /** The state has absorbed the full blocks of `m`, and the buffer holds the rest. */
    ghost predicate Holds(m: seq<byte>)
      reads this, state, buf
    {
      && state.Length == 8 && buf.Length == 64
      && bufLen < 64 && buf[..bufLen] == Rest(m)
      && state[..] == Fold(H0, m)
    }

    ghost predicate Valid()
      reads this, state, buf
    {
      Holds(message) && totalLen == |message| <= MAX_LEN
    }

    constructor ()
      ensures Valid() && message == [] && fresh(state) && fresh(buf)
    {
      state := new word[8](i requires 0 <= i < 8 => H0[i]);
      buf := new byte[64](_ => 0);
      bufLen, totalLen, message := 0, 0, [];
      new;
      assert state[..] == H0;
    }

    /** Feed bytes; the pieces of any number of calls add up to one message. */
    method Update(data: seq<byte>)
      requires Valid() && |message| + |data| <= MAX_LEN
      modifies this, state, buf
      ensures Valid() && message == old(message) + data
    {
      totalLen := totalLen + |data|;
      var rest := data;
      assert message + rest == old(message) + data;
      while rest != []
        invariant Holds(message)
        invariant message + rest == old(message) + data
        invariant totalLen == |old(message) + data|
        decreases |rest|
      {
        var take := if 64 - bufLen < |rest| then 64 - bufLen else |rest|;
        ghost var m := message + rest[..take];
        assert m + rest[take..] == message + rest;
        TakePiece(rest[..take]);
        rest := rest[take..];
      }
      assert message == old(message) + data;
    }

    /** Append a piece that fits the buffer, and compress the buffer when it is full. */
    method TakePiece(piece: seq<byte>)
      requires Holds(message) && bufLen + |piece| <= 64
      modifies this`bufLen, this`message, state, buf
      ensures message == old(message) + piece
      ensures Holds(message)
    {
      Copy(buf, bufLen, piece);
      bufLen := bufLen + |piece|;
      if bufLen == 64 {
        FullBlock(H0, message, piece);
        assert buf[..] == Rest(message) + piece;
        CompressInPlace(state, buf[..]);
        bufLen := 0;
      } else {
        ShortBlock(H0, message, piece);
      }
      message := message + piece;
    }

    /** Pad in the buffer, over one block or two, and return the digest of everything fed in. */
    method Finalize() returns (digest: Bytes32)
      requires Valid()
      modifies this, state, buf
      ensures digest == Digest(old(message))
    {
      DigestCloses(message);
      assert totalLen * 8 == 8 * |message|;
      CloseInPlace(totalLen * 8);
      digest := WriteWords(state[..]);
    }

    method CloseInPlace(totalBits: nat)
      requires state.Length == 8 && buf.Length == 64 && bufLen < 64
      modifies this`bufLen, state, buf
      ensures state[..] == Close(old(state[..]), old(buf[..bufLen]), BigEndian(totalBits, 8))
    {
      ghost var st, rest, len := state[..], buf[..bufLen], BigEndian(totalBits, 8);
      Copy(buf, bufLen, [0x80]);
      bufLen := bufLen + 1;
      assert buf[..bufLen] == rest + [0x80];
      if bufLen > 56 {
        Copy(buf, bufLen, Zeros(64 - bufLen));
        assert buf[..] == rest + [0x80] + Zeros(63 - |rest|);
        CompressInPlace(state, buf[..]);
        bufLen := 0;
        assert Close(st, rest, len) == Compress(state[..], Zeros(56) + len);
        assert buf[..bufLen] + Zeros(56) == Zeros(56);
      } else {
        assert Close(st, rest, len) == Compress(state[..], rest + [0x80] + Zeros(56 - bufLen) + len);
      }
      LastBlock(state, buf, bufLen, BigEndian(totalBits, 8));
    }
  }

  /** Zero up to the length field, write the length, compress. */
  method LastBlock(state: array<word>, buf: array<byte>, used: nat, len: seq<byte>)
    requires state.Length == 8 && buf.Length == 64 && used <= 56 && |len| == 8
    modifies state, buf
    ensures state[..] == Compress(old(state[..]), old(buf[..used]) + Zeros(56 - used) + len)
  {
    Copy(buf, used, Zeros(56 - used));
    Copy(buf, 56, len);
    assert buf[..] == old(buf[..used]) + Zeros(56 - used) + len;
    CompressInPlace(state, buf[..]);
  }

  method WriteWords(s: State) returns (out: Bytes32)
    ensures out == Serialize(s)
  {
    var b := [];
    for i := 0 to 8
      invariant b == Serialize(s[..i])
    {
      assert s[..i + 1][..i] == s[..i];
      b := b + WordBytes(s[i]);
    }
    assert s[..8] == s;
    out := b;
  }

  method Hash(data: seq<byte>) returns (digest: Bytes32)
    requires |data| <= MAX_LEN
    ensures digest == Digest(data)
  {
    var h := new Hasher();
    h.Update(data);
    assert [] + data == data;
    digest := h.Finalize();
  }

  // ---------------------------------------------------------------------------------------
  // HMAC, section 2 of RFC 2104
  // ---------------------------------------------------------------------------------------

  /** The key as one block: hashed if it is longer, then zero-filled. */
  function BlockKey(key: seq<byte>): (k: seq<byte>)
    ensures |k| == 64
  {
    if |key| > 64 then Digest(key) + Zeros(32) else key + Zeros(64 - |key|)
  }

  function Masked(key: seq<byte>, mask: byte): (k: seq<byte>)
    ensures |k| == |key|
  {
    seq(|key|, i requires 0 <= i < |key| => mask ^ key[i])
  }

  /** The two strings an HMAC hashes: the masked key with the text, and the masked key with the digest of that. */
  function Inner(k: seq<byte>, x: seq<byte>): seq<byte> { Masked(BlockKey(k), 0x36) + x }

  function Outer(k: seq<byte>, x: seq<byte>): seq<byte> { Masked(BlockKey(k), 0x5c) + Digest(Inner(k, x)) }

  function Hmac(key: seq<byte>, data: seq<byte>): Bytes32 { Digest(Outer(key, data)) }

  /** Section 2 of RFC 2104 spelled out for a key of at most a block, and long keys reduced to their digest. */
  lemma HmacIs(key: seq<byte>, data: seq<byte>)
    ensures |key| <= 64 ==>
              var block := key + Zeros(64 - |key|);
              var inner := seq(64, i requires 0 <= i < 64 => block[i] ^ 0x36);
              var outer := seq(64, i requires 0 <= i < 64 => block[i] ^ 0x5c);
              Hmac(key, data) == Digest(outer + Digest(inner + data))
    ensures |key| > 64 ==> Hmac(key, data) == Hmac(Digest(key), data)
  {
    if |key| <= 64 {
      var block := key + Zeros(64 - |key|);
      forall i | 0 <= i < 64
        ensures 0x36 ^ block[i] == block[i] ^ 0x36 && 0x5c ^ block[i] == block[i] ^ 0x5c
      {
      }
      assert Masked(block, 0x36) == seq(64, i requires 0 <= i < 64 => block[i] ^ 0x36);
      assert Masked(block, 0x5c) == seq(64, i requires 0 <= i < 64 => block[i] ^ 0x5c);
    }
  }

  method MaskKey(k: seq<byte>, mask: byte) returns (masked: seq<byte>)
    requires |k| == 64
    ensures masked == Masked(k, mask)
  {
    var pad := new byte[64](_ => mask);
    for i := 0 to 64
      invariant forall j :: 0 <= j < i ==> pad[j] == mask ^ k[j]
      invariant forall j :: i <= j < 64 ==> pad[j] == mask
    {
      pad[i] := pad[i] ^ k[i];
    }
    masked := pad[..];
  }

  method HashTwo(first: seq<byte>, second: seq<byte>) returns (digest: Bytes32)
    requires |first| + |second| <= MAX_LEN
    ensures digest == Digest(first + second)
  {
    var h := new Hasher();
    h.Update(first);
    h.Update(second);
    assert [] + first + second == first + second;
    digest := h.Finalize();
  }

  method ComputeHmac(key: seq<byte>, data: seq<byte>) returns (mac: Bytes32)
    requires |key| <= MAX_LEN && |data| + 64 <= MAX_LEN
    ensures mac == Hmac(key, data)
  {
    var k;
    if |key| > 64 {
      var hk := Hash(key);
      k := hk + Zeros(32);
    } else {
      k := key + Zeros(64 - |key|);
    }
    var ipad := MaskKey(k, 0x36);
    var opad := MaskKey(k, 0x5c);
    var inner := HashTwo(ipad, data);
    mac := HashTwo(opad, inner);
  }

  // ---------------------------------------------------------------------------------------
  // Where a collision of the hash must come from
  // ---------------------------------------------------------------------------------------

  /** Two different byte strings with one digest. */
  predicate HashCollision(x: seq<byte>, y: seq<byte>) { x != y && Digest(x) == Digest(y) }

  /** Two different inputs of the compression with one output. */
  predicate CompressCollision(s: State, b: seq<byte>, s': State, b': seq<byte>)
  {
    && |b| == 64 && |b'| == 64
    && (s != s' || b != b')
    && Compress(s, b) == Compress(s', b')
  }

  lemma {:induction false} SerializeInjective(s: seq<word>, t: seq<word>)
    requires |s| == |t| && Serialize(s) == Serialize(t)
    ensures s == t
  {
    if s != [] {
      var n := |s| - 1;
      var a, b := Serialize(s), Serialize(t);
      assert a[..4 * n] == Serialize(s[..n]) && b[..4 * n] == Serialize(t[..n]);
      assert a[4 * n..] == WordBytes(s[n]) && b[4 * n..] == WordBytes(t[n]);
      SerializeInjective(s[..n], t[..n]);
      WordBytesInjective(s[n], t[n]);
      assert s == s[..n] + [s[n]] && t == t[..n] + [t[n]];
    }
  }

  lemma WordBytesInjective(v: word, w: word)
    requires WordBytes(v) == WordBytes(w)
    ensures v == w
  {
    assert WordBytes(v)[0] == WordBytes(w)[0] && WordBytes(v)[1] == WordBytes(w)[1];
    assert WordBytes(v)[2] == WordBytes(w)[2] && WordBytes(v)[3] == WordBytes(w)[3];
  }

  lemma FoldLast(s: State, m: seq<byte>)
    requires |m| % 64 == 0 && m != []
    ensures |m| >= 64 && Fold(s, m) == Compress(Fold(s, m[..|m| - 64]), m[|m| - 64..])
  {
    assert (|m| - 64) % 64 == 0;
    FoldBlock(s, m[..|m| - 64], m[|m| - 64..]);
    assert m == m[..|m| - 64] + m[|m| - 64..];
  }

  /**
   The blocks at `k` of `p` and at `l` of `q`, each compressed into the state the blocks before it
   lead to, are a collision of the compression.
   */
  predicate CollideAt(s: State, p: seq<byte>, k: nat, q: seq<byte>, l: nat)
  {
    && k % 64 == 0 && k + 64 <= |p| && l % 64 == 0 && l + 64 <= |q|
    && CompressCollision(Fold(s, p[..k]), p[k..k + 64], Fold(s, q[..l]), q[l..l + 64])
  }

  /** Equal folds of different strings: the last blocks collide, or the strings before them do. */
  lemma LastOrBefore(s: State, m: seq<byte>, n: seq<byte>, k: nat)
    requires |m| == |n| == k + 64 && k % 64 == 0 && m != n && Fold(s, m) == Fold(s, n)
    ensures CollideAt(s, m, k, n, k) || (m[..k] != n[..k] && Fold(s, m[..k]) == Fold(s, n[..k]))
  {
    FoldLast(s, m);
    FoldLast(s, n);
    assert m[k..k + 64] == m[k..] && n[k..k + 64] == n[k..];
    assert m == m[..k] + m[k..] && n == n[..k] + n[k..];
  }

  /** Equal folds of different strings of one length meet in the compression of one of their blocks. */
  lemma {:induction false} FoldCollision(s: State, m: seq<byte>, n: seq<byte>) returns (k: nat)
    requires |m| % 64 == 0 && |m| == |n| && m != n && Fold(s, m) == Fold(s, n)
    ensures CollideAt(s, m, k, n, k)
    decreases |m|
  {
    BlockBefore(|m|);
    var len := |m| - 64;
    LastOrBefore(s, m, n, len);
    k := len;
    if !CollideAt(s, m, k, n, k) {
      k := FoldCollision(s, m[..len], n[..len]);
      CollidePrefix(s, m, n, len, k);
    }
  }

  lemma CollidePrefix(s: State, m: seq<byte>, n: seq<byte>, len: nat, k: nat)
    requires len <= |m| && len <= |n| && CollideAt(s, m[..len], k, n[..len], k)
    ensures CollideAt(s, m, k, n, k)
  {
    PrefixBlocks(m, len, k);
    PrefixBlocks(n, len, k);
  }

  lemma BlockBefore(n: nat)
    requires n % 64 == 0 && n >= 64
    ensures (n - 64) % 64 == 0
  {
  }

  lemma PrefixBlocks(m: seq<byte>, n: nat, k: nat)
    requires k + 64 <= n <= |m|
    ensures m[..n][..k] == m[..k] && m[..n][k..k + 64] == m[k..k + 64]
  {
  }

  /**
   Every collision of the hash contains a collision of the compression: two blocks of the padded
   messages, at one place if the messages are equally long.
   */
  lemma DigestCollision(m: seq<byte>, n: seq<byte>) returns (k: nat, l: nat)
    requires |m| <= MAX_LEN && |n| <= MAX_LEN && m != n && Digest(m) == Digest(n)
    ensures CollideAt(H0, Pad(m), k, Pad(n), l) && (|m| == |n| ==> k == l)
  {
    DigestIs(m);
    DigestIs(n);
    SerializeInjective(Fold(H0, Pad(m)), Fold(H0, Pad(n)));
    LengthField(m);
    LengthField(n);
    if |m| == |n| {
      k := FoldCollision(H0, Pad(m), Pad(n));
      l := k;
    } else {
      LastBlocksDiffer(m, n);
      LastCollide(H0, Pad(m), Pad(n));
      k, l := |Pad(m)| - 64, |Pad(n)| - 64;
    }
  }

  lemma LastCollide(s: State, p: seq<byte>, q: seq<byte>)
    requires |p| >= 64 && |q| >= 64 && |p| % 64 == 0 && |q| % 64 == 0 && Fold(s, p) == Fold(s, q)
    requires p[|p| - 64..] != q[|q| - 64..]
    ensures CollideAt(s, p, |p| - 64, q, |q| - 64)
  {
    FoldLast(s, p);
    FoldLast(s, q);
    BlockBefore(|p|);
    BlockBefore(|q|);
    assert p[|p| - 64..|p| - 64 + 64] == p[|p| - 64..] && q[|q| - 64..|q| - 64 + 64] == q[|q| - 64..];
  }

  /** With different lengths, the last blocks differ in their length fields. */
  lemma LastBlocksDiffer(m: seq<byte>, n: seq<byte>)
    requires |m| <= MAX_LEN && |n| <= MAX_LEN && |m| != |n|
    ensures |Pad(m)| >= 64 && |Pad(n)| >= 64 && Pad(m)[|Pad(m)| - 64..] != Pad(n)[|Pad(n)| - 64..]
  {
    LengthField(m);
    LengthField(n);
    Widths();
    if BigEndian(8 * |m|, 8) == BigEndian(8 * |n|, 8) {
      BigEndianInjective(8 * |m|, 8 * |n|, 8);
    }
  }

  lemma LengthField(m: seq<byte>)
    ensures |Pad(m)| >= 64 && Pad(m)[|Pad(m)| - 64..][56..] == BigEndian(8 * |m|, 8)
    ensures Pad(m)[..|m|] == m
  {
  }

  lemma MaskedInjective(a: seq<byte>, b: seq<byte>, mask: byte)
    requires |a| == |b| && Masked(a, mask) == Masked(b, mask)
    ensures a == b
  {
    forall i | 0 <= i < |a|
      ensures a[i] == b[i]
    {
      assert Masked(a, mask)[i] == Masked(b, mask)[i];
      assert mask ^ (mask ^ a[i]) == a[i] && mask ^ (mask ^ b[i]) == b[i];
    }
  }

  /** Keys of one length, at most a block, are different blocks. */
  lemma BlockKeyInjective(k: seq<byte>, k': seq<byte>)
    requires |k| == |k'| <= 64 && BlockKey(k) == BlockKey(k')
    ensures k == k'
  {
    assert BlockKey(k)[..|k|] == k && BlockKey(k')[..|k'|] == k';
  }

  lemma SplitEqual(a: seq<byte>, b: seq<byte>, c: seq<byte>, d: seq<byte>)
    requires |a| == |b|
    ensures a + c == b + d <==> a == b && c == d
  {
    if a + c == b + d {
      assert a == (a + c)[..|a|] && c == (a + c)[|a|..] && b == (b + d)[..|a|] && d == (b + d)[|a|..];
    }
  }

  /** The outer or the inner strings of two HMACs collide. */
  predicate HmacStringsCollide(k: seq<byte>, x: seq<byte>, k': seq<byte>, y: seq<byte>)
  {
    HashCollision(Outer(k, x), Outer(k', y)) || HashCollision(Inner(k, x), Inner(k', y))
  }

  /**
   One HMAC for two texts, or for two keys that are different blocks, means that the strings the two
   computations hash collide. Keys that are the same block, such as a short key and its zero-filled
   form, are one key.
   */
  lemma HmacCollision(k: seq<byte>, x: seq<byte>, k': seq<byte>, y: seq<byte>)
    requires (BlockKey(k) != BlockKey(k') || x != y) && Hmac(k, x) == Hmac(k', y)
    ensures HmacStringsCollide(k, x, k', y)
  {
    if Outer(k, x) == Outer(k', y) {
      SplitEqual(Masked(BlockKey(k), 0x5c), Masked(BlockKey(k'), 0x5c), Digest(Inner(k, x)), Digest(Inner(k', y)));
      MaskedInjective(BlockKey(k), BlockKey(k'), 0x5c);
      SplitEqual(Masked(BlockKey(k), 0x36), Masked(BlockKey(k'), 0x36), x, y);
    }
  }
}
