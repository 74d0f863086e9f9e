/**
 The one-block example of FIPS 180-4: the message "abc", its message schedule, the working
 variables after every second round, and the digest. It fixes what the laws of module Sha256
 leave open: the constants, the rounds, the byte orders and the padding.
 */
module Sha256Example {
  import opened Bytes
  import opened Sha256

  const W0: seq<word> :=
    [0x61626380, 0x00000000, 0x00000000, 0x00000000, 0x00000000, 0x00000000, 0x00000000, 0x00000000]
  const W1: seq<word> :=
    [0x00000000, 0x00000000, 0x00000000, 0x00000000, 0x00000000, 0x00000000, 0x00000000, 0x00000018]
  const W2: seq<word> :=
    [0x61626380, 0x000f0000, 0x7da86405, 0x600003c6, 0x3e9d7b78, 0x0183fc00, 0x12dcbfdb, 0xe2e2c38e]
  const W3: seq<word> :=
    [0xc8215c1a, 0xb73679a2, 0xe5bc3909, 0x32663c5b, 0x9d209d67, 0xec8726cb, 0x702138a4, 0xd3b7973b]
  const W4: seq<word> :=
    [0x93f5997f, 0x3b68ba73, 0xaff4ffc1, 0xf10a5c62, 0x0a8b3996, 0x72af830a, 0x9409e33e, 0x24641522]
  const W5: seq<word> :=
    [0x9f47bf94, 0xf0a64f5a, 0x3e246a79, 0x27333ba3, 0x0c4763f2, 0x840abf27, 0x7a290d5d, 0x065c43da]
  const W6: seq<word> :=
    [0xfb3e89cb, 0xcc7617db, 0xb9e66c34, 0xa9993667, 0x84badedd, 0xc21462bc, 0x1487472c, 0xb20f7a99]
  const W7: seq<word> :=
    [0xef57b9cd, 0xebe6b238, 0x9fe3095e, 0x78bc8d4b, 0xa43fcf15, 0x668b2ff8, 0xeeaba2cc, 0x12b1edeb]

  const V0: State := [0x6a09e667, 0xbb67ae85, 0x3c6ef372, 0xa54ff53a, 0x510e527f, 0x9b05688c, 0x1f83d9ab, 0x5be0cd19]
  const V1: State := [0x85a07b5f, 0xe5030380, 0x2b4209f5, 0x04409a6a, 0x0c657a79, 0x9b27a401, 0x714260ad, 0x43ada245]
  const V2: State := [0xb0fa238e, 0xc0645fde, 0xd932eb16, 0x87912990, 0x07590dcd, 0x0b92f20c, 0x745a48de, 0x1e578218]
  const V3: State := [0xc5d53d8d, 0xa7a3623f, 0xc2606d6d, 0x9dc68b63, 0xaa47c347, 0x49f5114a, 0xe1257970, 0x8ada8930]
  const V4: State := [0x73b33bf5, 0xea992a22, 0xa0060b30, 0x363482c9, 0xba591112, 0x0109ab3a, 0xade79437, 0x6112a3b7]
  const V5: State := [0x79ea687a, 0x6dc57a8a, 0x34df1604, 0x41a65cb1, 0x1efbc0a0, 0xf0781bc8, 0xa507a53d, 0x0772a26b]
  const V6: State := [0x4172328d, 0xa14c14b0, 0x72ab4b91, 0x26628815, 0xfecf0bc6, 0xd57b94a9, 0xb7755da1, 0xa80f11f0]
  const V7: State := [0x38cc9913, 0x3ec45cdb, 0xf5702fdb, 0x101fd28f, 0x54cb266b, 0xe50e1b4f, 0x9f4787c3, 0x529e7d00]
  const V8: State := [0x506e3058, 0xd39a2165, 0x04d24d6c, 0xb85e2ce9, 0x5ef50f24, 0xfb121210, 0x948d25b6, 0x961f4894]

  const DIGEST: State :=
    [0xba7816bf, 0x8f01cfea, 0x414140de, 0x5dae2223, 0xb00361a3, 0x96177a9c, 0xb410ff61, 0xf20015ad]

  // ---------------------------------------------------------------------------------------
  // The message schedule, in rows of eight
  // ---------------------------------------------------------------------------------------

  type Row = s: seq<word> | |s| == 8 witness seq(8, _ => 0)

  /** Word `i` of three rows. */
  function At(p: Row, q: Row, r: Row, i: nat): word
    requires i < 24
  {
    if i < 8 then p[i] else if i < 16 then q[i - 8] else r[i - 16]
  }

  /** Words 16 to `n - 1` of three rows follow from the ones before them. */
  predicate Recurs(p: Row, q: Row, r: Row, n: nat)
    requires n <= 24
  {
    n <= 16 || (Recurs(p, q, r, n - 1) && At(p, q, r, n - 1) == NextWord(p, q, r, n - 1))
  }

  function NextWord(p: Row, q: Row, r: Row, i: nat): word
    requires 16 <= i < 24
  {
    Sum4(At(p, q, r, i - 16), SmallSigma0(At(p, q, r, i - 15)), At(p, q, r, i - 7), SmallSigma1(At(p, q, r, i - 2)))
  }

  /** The first `n` words of three rows are words of the schedule, from word `t` on. */
  predicate Words(b: seq<byte>, t: nat, p: Row, q: Row, r: Row, n: nat)
    requires |b| == 64 && n <= 24 && t + n <= 64
  {
    forall i :: 0 <= i < n ==> W(b, t + i) == At(p, q, r, i)
  }

  lemma WordFrom(b: seq<byte>, t: nat, w16: word, w15: word, w7: word, w2: word)
    requires |b| == 64 && 16 <= t < 64
    requires W(b, t - 16) == w16 && W(b, t - 15) == w15 && W(b, t - 7) == w7 && W(b, t - 2) == w2
    ensures W(b, t) == Sum4(w16, SmallSigma0(w15), w7, SmallSigma1(w2))
  {
  }

  lemma {:induction false} WordsFollow(b: seq<byte>, t: nat, p: Row, q: Row, r: Row, n: nat)
    requires |b| == 64 && 16 <= n <= 24 && t + n <= 64 && Recurs(p, q, r, n) && Words(b, t, p, q, r, 16)
    ensures Words(b, t, p, q, r, n)
  {
    if n > 16 {
      WordsFollow(b, t, p, q, r, n - 1);
      var i := n - 1;
      assert W(b, t + (i - 16)) == At(p, q, r, i - 16) && W(b, t + (i - 15)) == At(p, q, r, i - 15);
      assert W(b, t + (i - 7)) == At(p, q, r, i - 7) && W(b, t + (i - 2)) == At(p, q, r, i - 2);
      WordFrom(b, t + i, At(p, q, r, i - 16), At(p, q, r, i - 15), At(p, q, r, i - 7), At(p, q, r, i - 2));
    }
  }

  lemma Words2()
    ensures Recurs(W0, W1, W2, 24)
  {
    assert Recurs(W0, W1, W2, 18);
    assert Recurs(W0, W1, W2, 20);
    assert Recurs(W0, W1, W2, 22);
  }

  lemma Words3()
    ensures Recurs(W1, W2, W3, 24)
  {
    assert Recurs(W1, W2, W3, 18);
    assert Recurs(W1, W2, W3, 20);
    assert Recurs(W1, W2, W3, 22);
  }

  lemma Words4()
    ensures Recurs(W2, W3, W4, 24)
  {
    assert Recurs(W2, W3, W4, 18);
    assert Recurs(W2, W3, W4, 20);
    assert Recurs(W2, W3, W4, 22);
  }

  lemma Words5()
    ensures Recurs(W3, W4, W5, 24)
  {
    assert Recurs(W3, W4, W5, 18);
    assert Recurs(W3, W4, W5, 20);
    assert Recurs(W3, W4, W5, 22);
  }

  lemma Words6()
    ensures Recurs(W4, W5, W6, 24)
  {
    assert Recurs(W4, W5, W6, 18);
    assert Recurs(W4, W5, W6, 20);
    assert Recurs(W4, W5, W6, 22);
  }

  lemma Words7()
    ensures Recurs(W5, W6, W7, 24)
  {
    assert Recurs(W5, W6, W7, 18);
    assert Recurs(W5, W6, W7, 20);
    assert Recurs(W5, W6, W7, 22);
  }

  // ---------------------------------------------------------------------------------------
  // The rounds, eight at a time
  // ---------------------------------------------------------------------------------------

  type RoundFunction = (State, word, word) -> State

  /** `n` rounds, each of which does `f`. */
  function Rounds(f: RoundFunction, v: State, k: Row, w: Row, n: nat): State
    requires n <= 8
  {
    if n == 0 then v else f(Rounds(f, v, k, w, n - 1), k[n - 1], w[n - 1])
  }

  lemma {:induction false} Iterates(f: RoundFunction, stage: nat -> State, t: nat, k: Row, w: Row, n: nat)
    requires n <= 8 && Advances(f, stage, t, k, w)
    ensures stage(t + n) == Rounds(f, stage(t), k, w, n)
  {
    if n > 0 {
      Iterates(f, stage, t, k, w, n - 1);
      var i, j := t + n - 1, t + n;
      assert stage(j) == f(stage(i), k[i - t], w[i - t]);
    }
  }

  predicate RowIs(b: seq<byte>, t: nat, w: Row)
    requires |b| == 64 && t + 8 <= 64
  {
    forall i :: 0 <= i < 8 ==> W(b, t + i) == w[i]
  }

  predicate ConstantsAre(t: nat, k: Row)
    requires t + 8 <= 64
  {
    forall i :: 0 <= i < 8 ==> Constant(t + i) == k[i]
  }

  function StageOf(b: seq<byte>, t: nat): State
    requires |b| == 64
  {
    if t <= 65 then Stage(H0, b, t) else H0
  }

  function StagesOf(b: seq<byte>): nat -> State
    requires |b| == 64
  {
    (t: nat) => StageOf(b, t)
  }

  /** Each of eight stages follows from the one before by `f`. */
  predicate Advances(f: RoundFunction, stage: nat -> State, t: nat, k: Row, w: Row)
  {
    forall i, j :: t <= i < t + 8 && t < j <= t + 8 && j == i + 1 ==> stage(j) == f(stage(i), k[i - t], w[i - t])
  }

  lemma StagesAdvance(b: seq<byte>, t: nat, k: Row, w: Row)
    requires |b| == 64 && t + 8 <= 64 && ConstantsAre(t, k) && RowIs(b, t, w)
    ensures Advances(Round, StagesOf(b), t, k, w)
  {
    forall i, j | t <= i < t + 8 && t < j <= t + 8 && j == i + 1
      ensures StagesOf(b)(j) == Round(StagesOf(b)(i), k[i - t], w[i - t])
    {
      assert Constant(t + (i - t)) == k[i - t] && W(b, t + (i - t)) == w[i - t];
      OneStage(b, i, k[i - t], w[i - t]);
    }
  }

  lemma OneStage(b: seq<byte>, t: nat, k: word, w: word)
    requires |b| == 64 && t < 64 && Constant(t) == k && W(b, t) == w
    ensures StagesOf(b)(t + 1) == Round(StagesOf(b)(t), k, w)
  {
    StageStep(H0, b, t, Stage(H0, b, t), k, w);
  }

  lemma Rounds0()
    ensures Rounds(Round, V0, K[0], W0, 8) == V1
  {
    assert Rounds(Round, V0, K[0], W0, 2) ==
      [0x5a6ad9ad, 0x5d6aebcd, 0x6a09e667, 0xbb67ae85, 0x78ce7989, 0xfa2a4622, 0x510e527f, 0x9b05688c];
    assert Rounds(Round, V0, K[0], W0, 4) ==
      [0xd550f666, 0xc8c347a7, 0x5a6ad9ad, 0x5d6aebcd, 0x24e00850, 0xf92939eb, 0x78ce7989, 0xfa2a4622];
    assert Rounds(Round, V0, K[0], W0, 6) ==
      [0x2b4209f5, 0x04409a6a, 0xd550f666, 0xc8c347a7, 0x714260ad, 0x43ada245, 0x24e00850, 0xf92939eb];
  }

  lemma Rounds1()
    ensures Rounds(Round, V1, K[1], W1, 8) == V2
  {
    assert Rounds(Round, V1, K[1], W1, 2) ==
      [0x8c87346b, 0x8e04ecb9, 0x85a07b5f, 0xe5030380, 0x1cc92596, 0x32ca2d8c, 0x0c657a79, 0x9b27a401];
    assert Rounds(Round, V1, K[1], W1, 4) ==
      [0xf71fc5a9, 0x4798a3f4, 0x8c87346b, 0x8e04ecb9, 0x816fd6e9, 0x436b23e8, 0x1cc92596, 0x32ca2d8c];
    assert Rounds(Round, V1, K[1], W1, 6) ==
      [0xd932eb16, 0x87912990, 0xf71fc5a9, 0x4798a3f4, 0x745a48de, 0x1e578218, 0x816fd6e9, 0x436b23e8];
  }

  lemma Rounds2()
    ensures Rounds(Round, V2, K[2], W2, 8) == V3
  {
    assert Rounds(Round, V2, K[2], W2, 2) ==
      [0xc2fbd9d1, 0x21da9a9b, 0xb0fa238e, 0xc0645fde, 0x846ee454, 0x8034229c, 0x07590dcd, 0x0b92f20c];
    assert Rounds(Round, V2, K[2], W2, 4) ==
      [0xe1f20c33, 0xfe777bbf, 0xc2fbd9d1, 0x21da9a9b, 0xb0638179, 0xcc899961, 0x846ee454, 0x8034229c];
    assert Rounds(Round, V2, K[2], W2, 6) ==
      [0xc2606d6d, 0x9dc68b63, 0xe1f20c33, 0xfe777bbf, 0xe1257970, 0x8ada8930, 0xb0638179, 0xcc899961];
  }

  lemma Rounds3()
    ensures Rounds(Round, V3, K[3], W3, 8) == V4
  {
    assert Rounds(Round, V3, K[3], W3, 2) ==
      [0xcde8037d, 0x1c2c2838, 0xc5d53d8d, 0xa7a3623f, 0x14383d8e, 0x2823ef91, 0xaa47c347, 0x49f5114a];
    assert Rounds(Round, V3, K[3], W3, 4) ==
      [0x77d37528, 0xb62ec4bc, 0xcde8037d, 0x1c2c2838, 0xedffbff8, 0xc74c6516, 0x14383d8e, 0x2823ef91];
    assert Rounds(Round, V3, K[3], W3, 6) ==
      [0xa0060b30, 0x363482c9, 0x77d37528, 0xb62ec4bc, 0xade79437, 0x6112a3b7, 0xedffbff8, 0xc74c6516];
  }

  lemma Rounds4()
    ensures Rounds(Round, V4, K[4], W4, 8) == V5
  {
    assert Rounds(Round, V4, K[4], W4, 2) ==
      [0xfe604df5, 0x98e12507, 0x73b33bf5, 0xea992a22, 0x59249dd3, 0x9cd9f5f6, 0xba591112, 0x0109ab3a];
    assert Rounds(Round, V4, K[4], W4, 4) ==
      [0x65a0cfe4, 0xa9a7738c, 0xfe604df5, 0x98e12507, 0xf4b002d6, 0x085f3833, 0x59249dd3, 0x9cd9f5f6];
    assert Rounds(Round, V4, K[4], W4, 6) ==
      [0x34df1604, 0x41a65cb1, 0x65a0cfe4, 0xa9a7738c, 0xa507a53d, 0x0772a26b, 0xf4b002d6, 0x085f3833];
  }

  lemma Rounds5()
    ensures Rounds(Round, V5, K[5], W5, 8) == V6
  {
    assert Rounds(Round, V5, K[5], W5, 2) ==
      [0xdf46652f, 0xd6670766, 0x79ea687a, 0x6dc57a8a, 0x838b2711, 0x26352d63, 0x1efbc0a0, 0xf0781bc8];
    assert Rounds(Round, V5, K[5], W5, 4) ==
      [0x9d4baf93, 0x17aa0dfe, 0xdf46652f, 0xd6670766, 0xfda24c2e, 0xdecd4715, 0x838b2711, 0x26352d63];
    assert Rounds(Round, V5, K[5], W5, 6) ==
      [0x72ab4b91, 0x26628815, 0x9d4baf93, 0x17aa0dfe, 0xb7755da1, 0xa80f11f0, 0xfda24c2e, 0xdecd4715];
  }

  lemma Rounds6()
    ensures Rounds(Round, V6, K[6], W6, 8) == V7
  {
    assert Rounds(Round, V6, K[6], W6, 2) ==
      [0xf11bfaa8, 0x05757ceb, 0x4172328d, 0xa14c14b0, 0x6e5c390c, 0xbd714038, 0xfecf0bc6, 0xd57b94a9];
    assert Rounds(Round, V6, K[6], W6, 4) ==
      [0x886e7a22, 0x7a0508a1, 0xf11bfaa8, 0x05757ceb, 0x49231c1e, 0x52f1ccf7, 0x6e5c390c, 0xbd714038];
    assert Rounds(Round, V6, K[6], W6, 6) ==
      [0xf5702fdb, 0x101fd28f, 0x886e7a22, 0x7a0508a1, 0x9f4787c3, 0x529e7d00, 0x49231c1e, 0x52f1ccf7];
  }

  lemma Rounds7()
    ensures Rounds(Round, V7, K[7], W7, 8) == V8
  {
    assert Rounds(Round, V7, K[7], W7, 2) ==
      [0xc062d46f, 0xfcd1887b, 0x38cc9913, 0x3ec45cdb, 0x7e44008e, 0x9b5e906c, 0x54cb266b, 0xe50e1b4f];
    assert Rounds(Round, V7, K[7], W7, 4) ==
      [0xb6ae8fff, 0xffb70472, 0xc062d46f, 0xfcd1887b, 0xb21bad3d, 0x6d83bfc6, 0x7e44008e, 0x9b5e906c];
    assert Rounds(Round, V7, K[7], W7, 6) ==
      [0x04d24d6c, 0xb85e2ce9, 0xb6ae8fff, 0xffb70472, 0x948d25b6, 0x961f4894, 0xb21bad3d, 0x6d83bfc6];
  }

  // ---------------------------------------------------------------------------------------
  // The message
  // ---------------------------------------------------------------------------------------

  lemma NextRow(b: seq<byte>, t: nat, p: Row, q: Row, r: Row)
    requires |b| == 64 && t + 24 <= 64 && RowIs(b, t, p) && RowIs(b, t + 8, q) && Recurs(p, q, r, 24)
    ensures RowIs(b, t + 16, r)
  {
    forall i | 0 <= i < 16
      ensures W(b, t + i) == At(p, q, r, i)
    {
      assert i < 8 || W(b, t + 8 + (i - 8)) == q[i - 8];
    }
    WordsFollow(b, t, p, q, r, 24);
    forall i | 0 <= i < 8
      ensures W(b, t + 16 + i) == r[i]
    {
      assert W(b, t + (16 + i)) == At(p, q, r, 16 + i);
    }
  }

  lemma RowConstants(r: nat)
    requires r < 8
    ensures ConstantsAre(8 * r, K[r])
  {
    forall i | 0 <= i < 8
      ensures Constant(8 * r + i) == K[r][i]
    {
      assert (8 * r + i) / 8 == r && (8 * r + i) % 8 == i;
    }
  }

  lemma Schedule(b: seq<byte>)
    requires |b| == 64 && RowIs(b, 0, W0) && RowIs(b, 8, W1)
    ensures RowIs(b, 16, W2) && RowIs(b, 24, W3) && RowIs(b, 32, W4) && RowIs(b, 40, W5) && RowIs(b, 48, W6)
    ensures RowIs(b, 56, W7)
  {
    Words2(); NextRow(b, 0, W0, W1, W2);
    Words3(); NextRow(b, 8, W1, W2, W3);
    Words4(); NextRow(b, 16, W2, W3, W4);
    Words5(); NextRow(b, 24, W3, W4, W5);
    Words6(); NextRow(b, 32, W4, W5, W6);
    Words7(); NextRow(b, 40, W5, W6, W7);
  }

  lemma After8(stage: nat -> State)
    requires stage(0) == V0 && Advances(Round, stage, 0, K[0], W0)
    ensures stage(8) == V1
  {
    Iterates(Round, stage, 0, K[0], W0, 8);
    Rounds0();
  }

  lemma After16(stage: nat -> State)
    requires stage(8) == V1 && Advances(Round, stage, 8, K[1], W1)
    ensures stage(16) == V2
  {
    Iterates(Round, stage, 8, K[1], W1, 8);
    Rounds1();
  }

  lemma After24(stage: nat -> State)
    requires stage(16) == V2 && Advances(Round, stage, 16, K[2], W2)
    ensures stage(24) == V3
  {
    Iterates(Round, stage, 16, K[2], W2, 8);
    Rounds2();
  }

  lemma After32(stage: nat -> State)
    requires stage(24) == V3 && Advances(Round, stage, 24, K[3], W3)
    ensures stage(32) == V4
  {
    Iterates(Round, stage, 24, K[3], W3, 8);
    Rounds3();
  }

  lemma After40(stage: nat -> State)
    requires stage(32) == V4 && Advances(Round, stage, 32, K[4], W4)
    ensures stage(40) == V5
  {
    Iterates(Round, stage, 32, K[4], W4, 8);
    Rounds4();
  }

  lemma After48(stage: nat -> State)
    requires stage(40) == V5 && Advances(Round, stage, 40, K[5], W5)
    ensures stage(48) == V6
  {
    Iterates(Round, stage, 40, K[5], W5, 8);
    Rounds5();
  }

  lemma After56(stage: nat -> State)
    requires stage(48) == V6 && Advances(Round, stage, 48, K[6], W6)
    ensures stage(56) == V7
  {
    Iterates(Round, stage, 48, K[6], W6, 8);
    Rounds6();
  }

  lemma After64(stage: nat -> State)
    requires stage(56) == V7 && Advances(Round, stage, 56, K[7], W7)
    ensures stage(64) == V8
  {
    Iterates(Round, stage, 56, K[7], W7, 8);
    Rounds7();
  }

  predicate AllAdvance(stage: nat -> State)
  {
    && Advances(Round, stage, 0, K[0], W0) && Advances(Round, stage, 8, K[1], W1)
    && Advances(Round, stage, 16, K[2], W2) && Advances(Round, stage, 24, K[3], W3)
    && Advances(Round, stage, 32, K[4], W4) && Advances(Round, stage, 40, K[5], W5)
    && Advances(Round, stage, 48, K[6], W6) && Advances(Round, stage, 56, K[7], W7)
  }

  lemma AllRounds(stage: nat -> State)
    requires stage(0) == V0 && AllAdvance(stage)
    ensures stage(64) == V8
  {
    After8(stage); After16(stage); After24(stage); After32(stage);
    After40(stage); After48(stage); After56(stage); After64(stage);
  }

  lemma RowAdvances(b: seq<byte>, r: nat, w: Row)
    requires |b| == 64 && r < 8 && RowIs(b, 8 * r, w)
    ensures Advances(Round, StagesOf(b), 8 * r, K[r], w)
  {
    RowConstants(r);
    StagesAdvance(b, 8 * r, K[r], w);
  }

  lemma RowsAdvance(b: seq<byte>)
    requires |b| == 64 && RowIs(b, 0, W0) && RowIs(b, 8, W1)
    ensures AllAdvance(StagesOf(b))
  {
    Schedule(b);
    RowAdvances(b, 0, W0); RowAdvances(b, 1, W1); RowAdvances(b, 2, W2); RowAdvances(b, 3, W3);
    RowAdvances(b, 4, W4); RowAdvances(b, 5, W5); RowAdvances(b, 6, W6); RowAdvances(b, 7, W7);
  }

  lemma LastSum()
    ensures Sum(H0, V8) == DIGEST
  {
  }

  /** The padded message. */
  function Abc(): (b: seq<byte>)
    ensures |b| == 64
  {
    [0x61, 0x62, 0x63, 0x80] + Zeros(59) + [0x18]
  }

  lemma FirstRows()
    ensures RowIs(Abc(), 0, W0) && RowIs(Abc(), 8, W1)
  {
    var b := Abc();
    assert b[0] == 0x61 && b[1] == 0x62 && b[2] == 0x63 && b[3] == 0x80 && b[63] == 0x18;
    assert forall i :: 4 <= i < 63 ==> b[i] == 0;
    FirstWords(b);
  }

  lemma FirstWords(b: seq<byte>)
    requires |b| == 64 && b[0] == 0x61 && b[1] == 0x62 && b[2] == 0x63 && b[3] == 0x80 && b[63] == 0x18
    requires forall i :: 4 <= i < 63 ==> b[i] == 0
    ensures RowIs(b, 0, W0) && RowIs(b, 8, W1)
  {
    assert W(b, 0) == W0[0] && W(b, 15) == W1[7];
    assert BeWord(0, 0, 0, 0) == 0;
    forall t | 1 <= t < 15
      ensures W(b, t) == 0
    {
    }
    forall i | 0 <= i < 8
      ensures W(b, 0 + i) == W0[i] && W(b, 8 + i) == W1[i]
    {
    }
  }

  lemma AsciiAbc()
    ensures Ascii("abc") == [0x61, 0x62, 0x63]
  {
  }

  lemma PadThree(m: seq<byte>)
    requires |m| == 3
    ensures Pad(m) == m + [0x80] + Zeros(52) + BigEndian(24, 8)
  {
    assert PadZeros(3) == 52;
  }

  lemma JoinZeros(m: seq<byte>)
    ensures m + [0x80] + Zeros(52) + (Zeros(7) + [0x18]) == m + [0x80] + Zeros(59) + [0x18]
  {
  }

  lemma PadAbc()
    ensures Pad(Ascii("abc")) == Abc()
  {
    var m := Ascii("abc");
    PadThree(m);
    LengthField24();
    JoinZeros(m);
    AsciiAbc();
    assert [0x61, 0x62, 0x63] + [0x80] == [0x61, 0x62, 0x63, 0x80];
  }

  lemma LengthField24()
    ensures BigEndian(24, 8) == Zeros(7) + [0x18]
  {
    NoHigherBytes(7);
  }

  lemma {:induction false} NoHigherBytes(k: nat)
    ensures BigEndian(0, k) == Zeros(k)
  {
    if k > 0 {
      NoHigherBytes(k - 1);
    }
  }

  lemma OneBlock(s: State, b: seq<byte>)
    requires |b| == 64
    ensures Fold(s, b) == Compress(s, b)
  {
    FoldBlock(s, [], b);
    assert [] + b == b;
  }

  lemma CompressRows(b: seq<byte>)
    requires |b| == 64 && RowIs(b, 0, W0) && RowIs(b, 8, W1)
    ensures Compress(H0, b) == Sum(H0, V8)
  {
    RowsAdvance(b);
    assert StagesOf(b)(0) == V0;
    AllRounds(StagesOf(b));
    assert StagesOf(b)(64) == Stage(H0, b, 64);
  }

  /** The digest of "abc", as FIPS 180-4 gives it, word by word. */
  lemma DigestAbc()
    ensures var d := Digest(Ascii("abc"));
            && d[0..4] == [0xba, 0x78, 0x16, 0xbf] && d[4..8] == [0x8f, 0x01, 0xcf, 0xea]
            && d[8..12] == [0x41, 0x41, 0x40, 0xde] && d[12..16] == [0x5d, 0xae, 0x22, 0x23]
            && d[16..20] == [0xb0, 0x03, 0x61, 0xa3] && d[20..24] == [0x96, 0x17, 0x7a, 0x9c]
            && d[24..28] == [0xb4, 0x10, 0xff, 0x61] && d[28..32] == [0xf2, 0x00, 0x15, 0xad]
  {
    DigestWords();
    Chunks(DIGEST, Digest(Ascii("abc")));
    WordsOut();
  }

  lemma DigestWords()
    ensures Digest(Ascii("abc")) == Serialize(DIGEST)
  {
    DigestIs(Ascii("abc"));
    PadAbc();
    OneBlock(H0, Abc());
    FirstRows();
    CompressRows(Abc());
    LastSum();
  }

  lemma Chunks(s: State, d: Bytes32)
    requires d == Serialize(s)
    ensures d[0..4] == WordBytes(s[0]) && d[4..8] == WordBytes(s[1])
    ensures d[8..12] == WordBytes(s[2]) && d[12..16] == WordBytes(s[3])
    ensures d[16..20] == WordBytes(s[4]) && d[20..24] == WordBytes(s[5])
    ensures d[24..28] == WordBytes(s[6]) && d[28..32] == WordBytes(s[7])
  {
    WrittenWord(s, 0); WrittenWord(s, 1); WrittenWord(s, 2); WrittenWord(s, 3);
    WrittenWord(s, 4); WrittenWord(s, 5); WrittenWord(s, 6); WrittenWord(s, 7);
  }

  lemma {:induction false} WrittenWord(s: seq<word>, i: nat)
    requires i < |s|
    ensures Serialize(s)[4 * i..4 * i + 4] == WordBytes(s[i])
  {
    var n := |s| - 1;
    var b, last := Serialize(s[..n]), WordBytes(s[n]);
    assert Serialize(s) == b + last;
    if i < n {
      WrittenWord(s[..n], i);
      assert (b + last)[4 * i..4 * i + 4] == b[4 * i..4 * i + 4];
    }
  }

  lemma WordsOut()
    ensures WordBytes(DIGEST[0]) == [0xba, 0x78, 0x16, 0xbf] && WordBytes(DIGEST[1]) == [0x8f, 0x01, 0xcf, 0xea]
    ensures WordBytes(DIGEST[2]) == [0x41, 0x41, 0x40, 0xde] && WordBytes(DIGEST[3]) == [0x5d, 0xae, 0x22, 0x23]
    ensures WordBytes(DIGEST[4]) == [0xb0, 0x03, 0x61, 0xa3] && WordBytes(DIGEST[5]) == [0x96, 0x17, 0x7a, 0x9c]
    ensures WordBytes(DIGEST[6]) == [0xb4, 0x10, 0xff, 0x61] && WordBytes(DIGEST[7]) == [0xf2, 0x00, 0x15, 0xad]
  {
  }
}
