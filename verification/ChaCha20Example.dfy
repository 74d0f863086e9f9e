/**
 The examples of sections 2.1.1 and 2.3.2 of RFC 8439: one quarter round, and the block with counter
 1 under the key 00, 01, ..., 1f, quarter round by quarter round. They fix what the laws of module
 ChaCha20 leave open: the constants, the schedule, the rotations and the byte order.
 */
module ChaCha20Example {
  import opened Bytes
  import opened ChaCha20

  // ---------------------------------------------------------------------------------------
  // Quarter rounds on words
  // ---------------------------------------------------------------------------------------

  datatype Four = Four(a: word, b: word, c: word, d: word)

  /** The quarter round on four words. */
  function OnWords(q: Four): Four
  {
    var a1 := Add(q.a, q.b);
    var d1 := Turn(q.d, a1, By16);
    var c1 := Add(q.c, d1);
    var b1 := Turn(q.b, c1, By12);
    var a2 := Add(a1, b1);
    var d2 := Turn(d1, a2, By8);
    var c2 := Add(c1, d2);
    Four(a2, Turn(b1, c2, By7), c2, d2)
  }

  /** The example of section 2.1.1. */
  lemma QuarterExample()
    ensures OnWords(Four(0x11111111, 0x01020304, 0x9b8d6f43, 0x01234567)) ==
            Four(0xea2a92f4, 0xcb1cf8ce, 0x4581472e, 0x5881c4bb)
  {
  }

  /** A quarter round that does `f` to its four words. */
  function Put(s: State, i: Slots, f: Four -> Four): State
    requires i.Distinct()
  {
    var q := f(Four(s[i.a], s[i.b], s[i.c], s[i.d]));
    s[i.a := q.a][i.b := q.b][i.c := q.c][i.d := q.d]
  }

  lemma QuarterOnWords(s: State, i: Slots)
    requires i.Distinct()
    ensures Quarter(s, i) == Put(s, i, OnWords)
  {
  }

  // ---------------------------------------------------------------------------------------
  // A double round, column by column and diagonal by diagonal
  // ---------------------------------------------------------------------------------------

  /** The state as four columns. */
  predicate Columns(s: State, c0: Four, c1: Four, c2: Four, c3: Four)
  {
    && s[0] == c0.a && s[4] == c0.b && s[8] == c0.c && s[12] == c0.d
    && s[1] == c1.a && s[5] == c1.b && s[9] == c1.c && s[13] == c1.d
    && s[2] == c2.a && s[6] == c2.b && s[10] == c2.c && s[14] == c2.d
    && s[3] == c3.a && s[7] == c3.b && s[11] == c3.c && s[15] == c3.d
  }

  /** The state as four diagonals. */
  predicate Diagonals(s: State, d0: Four, d1: Four, d2: Four, d3: Four)
  {
    && s[0] == d0.a && s[5] == d0.b && s[10] == d0.c && s[15] == d0.d
    && s[1] == d1.a && s[6] == d1.b && s[11] == d1.c && s[12] == d1.d
    && s[2] == d2.a && s[7] == d2.b && s[8] == d2.c && s[13] == d2.d
    && s[3] == d3.a && s[4] == d3.b && s[9] == d3.c && s[14] == d3.d
  }

  function ApplyBy(s: State, r: seq<Slots>, f: Four -> Four): State
    requires AllDistinct(r)
  {
    if r == [] then s else Put(ApplyBy(s, r[..|r| - 1], f), r[|r| - 1], f)
  }

  lemma {:induction false} ApplyOnWords(s: State, r: seq<Slots>)
    requires AllDistinct(r)
    ensures Apply(s, r) == ApplyBy(s, r, OnWords)
  {
    if r != [] {
      ApplyOnWords(s, r[..|r| - 1]);
      QuarterOnWords(Apply(s, r[..|r| - 1]), r[|r| - 1]);
    }
  }

  const COLUMNS: seq<Slots> := [Slots(0, 4, 8, 12), Slots(1, 5, 9, 13), Slots(2, 6, 10, 14), Slots(3, 7, 11, 15)]

  const DIAGONALS: seq<Slots> := [Slots(0, 5, 10, 15), Slots(1, 6, 11, 12), Slots(2, 7, 8, 13), Slots(3, 4, 9, 14)]

  lemma ApplyFour(s: State, a: Slots, b: Slots, c: Slots, d: Slots, f: Four -> Four)
    requires a.Distinct() && b.Distinct() && c.Distinct() && d.Distinct()
    ensures AllDistinct([a, b, c, d])
    ensures ApplyBy(s, [a, b, c, d], f) == Put(Put(Put(Put(s, a, f), b, f), c, f), d, f)
  {
    var r := [a, b, c, d];
    assert r[..3] == [a, b, c] && r[..3][..2] == [a, b] && r[..3][..2][..1] == [a] && r[..3][..2][..1][..0] == [];
    assert ApplyBy(s, r[..3][..2][..1], f) == Put(s, a, f);
    assert ApplyBy(s, r[..3][..2], f) == Put(Put(s, a, f), b, f);
  }

  lemma PutWords(s: State, i: Slots, f: Four -> Four, q: Four)
    requires i.Distinct() && s[i.a] == q.a && s[i.b] == q.b && s[i.c] == q.c && s[i.d] == q.d
    ensures var t, r := Put(s, i, f), f(q);
            && t[i.a] == r.a && t[i.b] == r.b && t[i.c] == r.c && t[i.d] == r.d
            && forall j :: 0 <= j < 16 && j != i.a && j != i.b && j != i.c && j != i.d ==> t[j] == s[j]
  {
    assert q == Four(s[i.a], s[i.b], s[i.c], s[i.d]);
  }

  lemma Column0(s: State, c0: Four, c1: Four, c2: Four, c3: Four, f: Four -> Four)
    requires Columns(s, c0, c1, c2, c3)
    ensures Columns(Put(s, Slots(0, 4, 8, 12), f), f(c0), c1, c2, c3)
  {
    PutWords(s, Slots(0, 4, 8, 12), f, c0);
  }

  lemma Column1(s: State, c0: Four, c1: Four, c2: Four, c3: Four, f: Four -> Four)
    requires Columns(s, c0, c1, c2, c3)
    ensures Columns(Put(s, Slots(1, 5, 9, 13), f), c0, f(c1), c2, c3)
  {
    PutWords(s, Slots(1, 5, 9, 13), f, c1);
  }

  lemma Column2(s: State, c0: Four, c1: Four, c2: Four, c3: Four, f: Four -> Four)
    requires Columns(s, c0, c1, c2, c3)
    ensures Columns(Put(s, Slots(2, 6, 10, 14), f), c0, c1, f(c2), c3)
  {
    PutWords(s, Slots(2, 6, 10, 14), f, c2);
  }

  lemma Column3(s: State, c0: Four, c1: Four, c2: Four, c3: Four, f: Four -> Four)
    requires Columns(s, c0, c1, c2, c3)
    ensures Columns(Put(s, Slots(3, 7, 11, 15), f), c0, c1, c2, f(c3))
  {
    PutWords(s, Slots(3, 7, 11, 15), f, c3);
  }

  lemma FourColumns(s: State, c0: Four, c1: Four, c2: Four, c3: Four, f: Four -> Four)
    requires Columns(s, c0, c1, c2, c3)
    ensures AllDistinct(COLUMNS) && Columns(ApplyBy(s, COLUMNS, f), f(c0), f(c1), f(c2), f(c3))
  {
    var i, j, k, l := Slots(0, 4, 8, 12), Slots(1, 5, 9, 13), Slots(2, 6, 10, 14), Slots(3, 7, 11, 15);
    var s1 := Put(s, i, f);
    var s2 := Put(s1, j, f);
    var s3 := Put(s2, k, f);
    Column0(s, c0, c1, c2, c3, f);
    Column1(s1, f(c0), c1, c2, c3, f);
    Column2(s2, f(c0), f(c1), c2, c3, f);
    Column3(s3, f(c0), f(c1), f(c2), c3, f);
    ApplyFour(s, i, j, k, l, f);
  }

  lemma Diagonal0(s: State, d0: Four, d1: Four, d2: Four, d3: Four, f: Four -> Four)
    requires Diagonals(s, d0, d1, d2, d3)
    ensures Diagonals(Put(s, Slots(0, 5, 10, 15), f), f(d0), d1, d2, d3)
  {
    PutWords(s, Slots(0, 5, 10, 15), f, d0);
  }

  lemma Diagonal1(s: State, d0: Four, d1: Four, d2: Four, d3: Four, f: Four -> Four)
    requires Diagonals(s, d0, d1, d2, d3)
    ensures Diagonals(Put(s, Slots(1, 6, 11, 12), f), d0, f(d1), d2, d3)
  {
    PutWords(s, Slots(1, 6, 11, 12), f, d1);
  }

  lemma Diagonal2(s: State, d0: Four, d1: Four, d2: Four, d3: Four, f: Four -> Four)
    requires Diagonals(s, d0, d1, d2, d3)
    ensures Diagonals(Put(s, Slots(2, 7, 8, 13), f), d0, d1, f(d2), d3)
  {
    PutWords(s, Slots(2, 7, 8, 13), f, d2);
  }

  lemma Diagonal3(s: State, d0: Four, d1: Four, d2: Four, d3: Four, f: Four -> Four)
    requires Diagonals(s, d0, d1, d2, d3)
    ensures Diagonals(Put(s, Slots(3, 4, 9, 14), f), d0, d1, d2, f(d3))
  {
    PutWords(s, Slots(3, 4, 9, 14), f, d3);
  }

  lemma FourDiagonals(s: State, d0: Four, d1: Four, d2: Four, d3: Four, f: Four -> Four)
    requires Diagonals(s, d0, d1, d2, d3)
    ensures AllDistinct(DIAGONALS) && Diagonals(ApplyBy(s, DIAGONALS, f), f(d0), f(d1), f(d2), f(d3))
  {
    var i, j, k, l := Slots(0, 5, 10, 15), Slots(1, 6, 11, 12), Slots(2, 7, 8, 13), Slots(3, 4, 9, 14);
    var s1 := Put(s, i, f);
    var s2 := Put(s1, j, f);
    var s3 := Put(s2, k, f);
    Diagonal0(s, d0, d1, d2, d3, f);
    Diagonal1(s1, f(d0), d1, d2, d3, f);
    Diagonal2(s2, f(d0), f(d1), d2, d3, f);
    Diagonal3(s3, f(d0), f(d1), f(d2), d3, f);
    ApplyFour(s, i, j, k, l, f);
  }

  // ---------------------------------------------------------------------------------------
  // The twenty rounds of the example
  // ---------------------------------------------------------------------------------------

  /** Four columns. */
  datatype Quad = Quad(w: Four, x: Four, y: Four, z: Four)

  function Diag0(q: Quad): Four { Four(q.w.a, q.x.b, q.y.c, q.z.d) }
  function Diag1(q: Quad): Four { Four(q.x.a, q.y.b, q.z.c, q.w.d) }
  function Diag2(q: Quad): Four { Four(q.y.a, q.z.b, q.w.c, q.x.d) }
  function Diag3(q: Quad): Four { Four(q.z.a, q.w.b, q.x.c, q.y.d) }

  /** `f` takes the columns of `c` to those of `p`. */
  predicate Across(f: Four -> Four, c: Quad, p: Quad)
  {
    f(c.w) == p.w && f(c.x) == p.x && f(c.y) == p.y && f(c.z) == p.z
  }

  /** `f` takes the diagonals of `p` to those of `n`. */
  predicate Askew(f: Four -> Four, p: Quad, n: Quad)
  {
    f(Diag0(p)) == Diag0(n) && f(Diag1(p)) == Diag1(n) && f(Diag2(p)) == Diag2(n) && f(Diag3(p)) == Diag3(n)
  }

  predicate Holds(s: State, q: Quad) { Columns(s, q.w, q.x, q.y, q.z) }

  lemma Doubled(s: State, f: Four -> Four, c: Quad, p: Quad, n: Quad)
    requires Holds(s, c) && Across(f, c, p) && Askew(f, p, n)
    ensures AllDistinct(COLUMNS + DIAGONALS) && Holds(ApplyBy(s, COLUMNS + DIAGONALS, f), n)
  {
    FourColumns(s, c.w, c.x, c.y, c.z, f);
    var t := ApplyBy(s, COLUMNS, f);
    FourDiagonals(t, Diag0(p), Diag1(p), Diag2(p), Diag3(p), f);
    ApplyByConcat(s, COLUMNS, DIAGONALS, f);
  }

  lemma {:induction false} ApplyByConcat(s: State, a: seq<Slots>, b: seq<Slots>, f: Four -> Four)
    requires AllDistinct(a) && AllDistinct(b)
    ensures AllDistinct(a + b) && ApplyBy(s, a + b, f) == ApplyBy(ApplyBy(s, a, f), b, f)
  {
    if b == [] {
      assert a + b == a;
    } else {
      ApplyByConcat(s, a, b[..|b| - 1], f);
      assert (a + b)[..|a + b| - 1] == a + b[..|b| - 1];
    }
  }

  const C0: Quad :=
    Quad(Four(0x61707865, 0x03020100, 0x13121110, 0x00000001), Four(0x3320646e, 0x07060504, 0x17161514, 0x09000000),
         Four(0x79622d32, 0x0b0a0908, 0x1b1a1918, 0x4a000000), Four(0x6b206574, 0x0f0e0d0c, 0x1f1e1d1c, 0x00000000))
  const P0: Quad :=
    Quad(Four(0xabbaa25c, 0x3a465196, 0x6b3ca454, 0xdec62ed2), Four(0x1efa51ea, 0x1c7e64f6, 0x08eb14b1, 0x8862cc77),
         Four(0x7354fbdf, 0xb12fb628, 0xbf8a9ac9, 0x6e35b345), Four(0x83d2dc69, 0xf05b6976, 0xe444df3b, 0x52a647f1))
  const C1: Quad :=
    Quad(Four(0xcd52e917, 0xc4b7cd22, 0x7bf7d740, 0x6b0d58a3), Four(0x85ab03b4, 0x5c2e187a, 0x7eddd644, 0x6798471a),
         Four(0xb3457395, 0xc95eb461, 0xf1a1bdf5, 0xd737f167), Four(0xf96de7dd, 0x316c801a, 0x761246ca, 0xf173888d))
  const P1: Quad :=
    Quad(Four(0xe3e1111b, 0xd65b5b5b, 0xe67aec54, 0x7be81c0d), Four(0xa6291491, 0xf56af099, 0xf7a52d82, 0x1d92d0fd),
         Four(0x5a82b80c, 0x4ccc8103, 0xdb470914, 0x13139f8c), Four(0x4500fd45, 0xc94d29e2, 0xdfb40f1d, 0x7a26ecaa))
  const C2: Quad :=
    Quad(Four(0xcf1a7584, 0x901d2f40, 0x2dafb216, 0x10aef18d), Four(0x048927ec, 0x7974b81c, 0x27c89cd6, 0x16218765),
         Four(0x54051fda, 0x378dcfb4, 0xcd3c9aa0, 0x68f76705), Four(0xc244ff28, 0xcd47fd0e, 0x79fc89c7, 0x04d6ee22))
  const P2: Quad :=
    Quad(Four(0xa22695f2, 0x1ece4458, 0xf2d36da6, 0x6fda6bf7), Four(0xa908cf6c, 0xe82b726f, 0xf4dab980, 0x65a4b0ce),
         Four(0xe6ae05b2, 0x5a21ab90, 0x7baf5573, 0x25e6d76e), Four(0xfe0ff04b, 0x87698c64, 0xa78c270d, 0x1b7b11ec))
  const C3: Quad :=
    Quad(Four(0x03a14032, 0xa7143ae0, 0xc90c6b18, 0xba35d777), Four(0x66b15927, 0xa09b33dd, 0x5a202413, 0xb360f1bf),
         Four(0x9d6b6b42, 0xa5daaf88, 0xc20e01b6, 0x8178315b), Four(0xb84c4109, 0x2fd91a73, 0x72cd6b74, 0x2cd11b1a))
  const P3: Quad :=
    Quad(Four(0xfecd0838, 0xcedf6624, 0x1d8a33ea, 0xa818b852), Four(0x160ab468, 0xb11de6c4, 0x87dc1ca9, 0xb100446a),
         Four(0x9a0ddf4e, 0xbd7810ef, 0x89bd34a5, 0x9c1d70b1), Four(0xbac7154a, 0xd22b5643, 0x5505ef62, 0xa1d1befa))
  const C4: Quad :=
    Quad(Four(0x9a2d3589, 0x0a1bffc6, 0xe46c6354, 0x2687d476), Four(0x0b23fc4e, 0x5e5993f7, 0xc9503229, 0x54e65231),
         Four(0x40af3b6b, 0x9904c2e7, 0x04fef5aa, 0x3594ffc5), Four(0xceea8144, 0x0d334718, 0xf8933f72, 0x2b3bb2ca))
  const P4: Quad :=
    Quad(Four(0x85e7824a, 0x1c133ea1, 0xa3a66a86, 0xde008464), Four(0x4940cd9e, 0xbba40b0f, 0xc0b4754f, 0x34f0058b),
         Four(0xfbe7684b, 0x9413992a, 0x771b4ecb, 0x70846cfa), Four(0x7335d03d, 0xa4ab2040, 0x165151a1, 0xa3271b09))
  const C5: Quad :=
    Quad(Four(0xc53318c5, 0x26d7cf73, 0xae2ca8db, 0x9e5ec228), Four(0xca325d96, 0x6088d379, 0x42f67c72, 0x7d85a9f3),
         Four(0x7e7d11cb, 0xc0f0e9bd, 0x71669aca, 0x201d0756), Four(0x3404e2ca, 0xe310cdb9, 0x975c171d, 0x63fa6953))
  const P5: Quad :=
    Quad(Four(0x9950b826, 0x2121065a, 0x19078de2, 0x40ca72b3), Four(0xcac7ccc6, 0xc12bdadb, 0x178ecc02, 0x3b9bf852),
         Four(0x84a67673, 0xcae3acd1, 0xe6adbdb2, 0x78690378), Four(0xdb3109a6, 0x594616cb, 0x52a9d50e, 0xe17d4902))
  const C6: Quad :=
    Quad(Four(0x04a3131a, 0x36cc86c7, 0x07d13aca, 0x33b6686d), Four(0x66176309, 0xbf8a4465, 0xeb0be9af, 0x795cc671),
         Four(0x0415bab1, 0xf77dd720, 0x61599491, 0xc0049972), Four(0x61b880a2, 0xfc0bdc90, 0x918512dc, 0xa0a81bde))
  const P6: Quad :=
    Quad(Four(0x57c5e6da, 0x8e85d82f, 0x434b4749, 0x49ee03a6), Four(0x35ce46a8, 0xb4819d06, 0x1d459c00, 0xd11a5554),
         Four(0x0c041bb9, 0xb63be200, 0x111cfe2c, 0xa7202e04), Four(0xfa91df79, 0xacd221e4, 0x55942604, 0x7d2215bc))
  const C7: Quad :=
    Quad(Four(0x9b70f51f, 0x93b08686, 0xd839165e, 0xa609f555), Four(0x7ea8ac11, 0x6a4c50ae, 0x4c06e28a, 0x2c246549),
         Four(0x21e54da9, 0x19212a5a, 0xd3fde99e, 0x95151853), Four(0xca393b2f, 0x9b032958, 0x26acc13d, 0x2c847a0d))
  const P7: Quad :=
    Quad(Four(0xc0b18aee, 0xdeb54e9c, 0xa82d65d4, 0x4103c64e), Four(0x087445ba, 0x802c883b, 0x687f11eb, 0x82816a91),
         Four(0x36e52ad9, 0x06e86889, 0xe9d36207, 0xb584ca56), Four(0xa777426a, 0x3c002680, 0x4242ddae, 0xfd0bd2b9))
  const C8: Quad :=
    Quad(Four(0xca5c85dd, 0x982563f8, 0x1c25931a, 0xa9b751fb), Four(0x93a4f90e, 0x712aa9ff, 0x5180bb10, 0x382f3ce2),
         Four(0xd9f0df58, 0x279a61e8, 0x779c27e7, 0x8db1757d), Four(0x26dd82dd, 0x970f72bd, 0x54077e08, 0xcc38080b))
  const P8: Quad :=
    Quad(Four(0x765c6e9c, 0x9046ecaa, 0x46fa091e, 0x72a5aace), Four(0x5ab09b11, 0x7b88d882, 0x5117e9b5, 0x5fa7f1c5),
         Four(0x3ee7da04, 0xb9b577dd, 0x862ff22b, 0xda563e0a), Four(0x37c31203, 0x156de7ed, 0xa3fcc7a6, 0x5263d7ca))
  const C9: Quad :=
    Quad(Four(0xb6b87de6, 0xdc33c122, 0x28c1fcb3, 0x21078b22), Four(0x9a016148, 0x98e18fa3, 0xc4b38f9d, 0xb193e7a3),
         Four(0x93859815, 0x5ffbe8fc, 0x83e2f5d7, 0xb2f49389), Four(0x4915e6cc, 0xf7154b8b, 0x7d24b98b, 0x6cde6026))
  const P9: Quad :=
    Quad(Four(0x8a07ff15, 0x913768fe, 0x0a39aedc, 0x2d4cfe3e), Four(0x0cadc51c, 0x442a0c0c, 0xc1428029, 0xe5466d1b),
         Four(0x017c8da9, 0x598fe3bb, 0x7b48135f, 0xe4ccdc13), Four(0x4afbe5df, 0x47d18828, 0x5a5f1098, 0x8ac92a18))
  const C10: Quad :=
    Quad(Four(0x837778ab, 0xc4f2d0c7, 0x335271c2, 0xd19c12b4), Four(0xe238d763, 0xfc62bb2f, 0xf29489f3, 0xb04e16de),
         Four(0xa67ae21e, 0x8fa018fc, 0xeabda8fc, 0x9e83d0cb), Four(0x5950bb2f, 0x3f5ec7b7, 0x82e46ebd, 0x4e3c50a2))

  lemma Across0() ensures Across(OnWords, C0, P0) {}
  lemma Askew0() ensures Askew(OnWords, P0, C1) {}
  lemma Across1() ensures Across(OnWords, C1, P1) {}
  lemma Askew1() ensures Askew(OnWords, P1, C2) {}
  lemma Across2() ensures Across(OnWords, C2, P2) {}
  lemma Askew2() ensures Askew(OnWords, P2, C3) {}
  lemma Across3() ensures Across(OnWords, C3, P3) {}
  lemma Askew3() ensures Askew(OnWords, P3, C4) {}
  lemma Across4() ensures Across(OnWords, C4, P4) {}
  lemma Askew4() ensures Askew(OnWords, P4, C5) {}
  lemma Across5() ensures Across(OnWords, C5, P5) {}
  lemma Askew5() ensures Askew(OnWords, P5, C6) {}
  lemma Across6() ensures Across(OnWords, C6, P6) {}
  lemma Askew6() ensures Askew(OnWords, P6, C7) {}
  lemma Across7() ensures Across(OnWords, C7, P7) {}
  lemma Askew7() ensures Askew(OnWords, P7, C8) {}
  lemma Across8() ensures Across(OnWords, C8, P8) {}
  lemma Askew8() ensures Askew(OnWords, P8, C9) {}
  lemma Across9() ensures Across(OnWords, C9, P9) {}
  lemma Askew9() ensures Askew(OnWords, P9, C10) {}

  lemma OneDouble(s: State, c: Quad, p: Quad, n: Quad)
    requires Holds(s, c) && Across(OnWords, c, p) && Askew(OnWords, p, n)
    ensures Holds(Apply(s, DoubleRound()), n)
  {
    Doubled(s, OnWords, c, p, n);
    assert DoubleRound() == COLUMNS + DIAGONALS;
    ApplyOnWords(s, DoubleRound());
  }

  lemma Double0(s: State)
    requires Holds(s, C0)
    ensures Holds(Apply(s, DoubleRound()), C1)
  {
    Across0(); Askew0();
    OneDouble(s, C0, P0, C1);
  }

  lemma Double1(s: State)
    requires Holds(s, C1)
    ensures Holds(Apply(s, DoubleRound()), C2)
  {
    Across1(); Askew1();
    OneDouble(s, C1, P1, C2);
  }

  lemma Double2(s: State)
    requires Holds(s, C2)
    ensures Holds(Apply(s, DoubleRound()), C3)
  {
    Across2(); Askew2();
    OneDouble(s, C2, P2, C3);
  }

  lemma Double3(s: State)
    requires Holds(s, C3)
    ensures Holds(Apply(s, DoubleRound()), C4)
  {
    Across3(); Askew3();
    OneDouble(s, C3, P3, C4);
  }

  lemma Double4(s: State)
    requires Holds(s, C4)
    ensures Holds(Apply(s, DoubleRound()), C5)
  {
    Across4(); Askew4();
    OneDouble(s, C4, P4, C5);
  }

  lemma Double5(s: State)
    requires Holds(s, C5)
    ensures Holds(Apply(s, DoubleRound()), C6)
  {
    Across5(); Askew5();
    OneDouble(s, C5, P5, C6);
  }

  lemma Double6(s: State)
    requires Holds(s, C6)
    ensures Holds(Apply(s, DoubleRound()), C7)
  {
    Across6(); Askew6();
    OneDouble(s, C6, P6, C7);
  }

  lemma Double7(s: State)
    requires Holds(s, C7)
    ensures Holds(Apply(s, DoubleRound()), C8)
  {
    Across7(); Askew7();
    OneDouble(s, C7, P7, C8);
  }

  lemma Double8(s: State)
    requires Holds(s, C8)
    ensures Holds(Apply(s, DoubleRound()), C9)
  {
    Across8(); Askew8();
    OneDouble(s, C8, P8, C9);
  }

  lemma Double9(s: State)
    requires Holds(s, C9)
    ensures Holds(Apply(s, DoubleRound()), C10)
  {
    Across9(); Askew9();
    OneDouble(s, C9, P9, C10);
  }

  lemma OnceMore(s: State, n: nat)
    ensures Apply(s, Repeat(DoubleRound(), n + 1)) == Apply(Apply(s, Repeat(DoubleRound(), n)), DoubleRound())
  {
    ApplyConcat(s, Repeat(DoubleRound(), n), DoubleRound());
  }

  function After(s: State, n: nat): State { Apply(s, Repeat(DoubleRound(), n)) }

  lemma TenDoubles(s: State)
    requires Holds(s, C0)
    ensures Holds(Apply(s, Schedule()), C10)
  {
    Double0(After(s, 0)); OnceMore(s, 0);
    Double1(After(s, 1)); OnceMore(s, 1);
    Double2(After(s, 2)); OnceMore(s, 2);
    Double3(After(s, 3)); OnceMore(s, 3);
    Double4(After(s, 4)); OnceMore(s, 4);
    Double5(After(s, 5)); OnceMore(s, 5);
    Double6(After(s, 6)); OnceMore(s, 6);
    Double7(After(s, 7)); OnceMore(s, 7);
    Double8(After(s, 8)); OnceMore(s, 8);
    Double9(After(s, 9)); OnceMore(s, 9);
  }

  // ---------------------------------------------------------------------------------------
  // The block
  // ---------------------------------------------------------------------------------------

  const KEY: seq<byte> :=
    [0x00, 0x01, 0x02, 0x03, 0x04, 0x05, 0x06, 0x07] + [0x08, 0x09, 0x0a, 0x0b, 0x0c, 0x0d, 0x0e, 0x0f] +
    [0x10, 0x11, 0x12, 0x13, 0x14, 0x15, 0x16, 0x17] + [0x18, 0x19, 0x1a, 0x1b, 0x1c, 0x1d, 0x1e, 0x1f]

  const NONCE: seq<byte> := [0x00, 0x00, 0x00, 0x09, 0x00, 0x00, 0x00, 0x4a, 0x00, 0x00, 0x00, 0x00]

  lemma FirstState()
    ensures |KEY| == 32 && |NONCE| == 12 && Holds(Initial(KEY, 1, NONCE), C0)
  {
    KeyWords();
    NonceWords();
    CounterWord();
  }

  lemma KeyWords()
    ensures |KEY| == 32
    ensures WordAt(KEY, 0) == 0x03020100 && WordAt(KEY, 1) == 0x07060504
    ensures WordAt(KEY, 2) == 0x0b0a0908 && WordAt(KEY, 3) == 0x0f0e0d0c
    ensures WordAt(KEY, 4) == 0x13121110 && WordAt(KEY, 5) == 0x17161514
    ensures WordAt(KEY, 6) == 0x1b1a1918 && WordAt(KEY, 7) == 0x1f1e1d1c
  {
  }

  lemma NonceWords()
    ensures |NONCE| == 12
    ensures WordAt(NONCE, 0) == 0x09000000 && WordAt(NONCE, 1) == 0x4a000000 && WordAt(NONCE, 2) == 0x00000000
  {
  }

  lemma CounterWord()
    ensures WordOf(1) == 1
  {
    assert LittleEndian(0, 1) == [0];
    assert LittleEndian(0, 2) == [0, 0];
    assert LittleEndian(0, 3) == [0, 0, 0];
    assert LittleEndian(1, 4) == [1, 0, 0, 0];
  }

  lemma {:induction false} SerializedWord(s: seq<word>, i: nat)
    requires i < |s|
    ensures WordAt(Serialize(s), i) == s[i]
  {
    var n := |s| - 1;
    if i < n {
      SerializedWord(s[..n], i);
    } else {
      WordsAgain(s[n]);
    }
  }

  lemma WordsAgain(w: word)
    ensures var b := WordBytes(w); LeWord(b[0], b[1], b[2], b[3]) == w
  {
  }

  const LAST: Quad :=
    Quad(Four(0xe4e7f110, 0xc7f4d1c7, 0x466482d2, 0xd19c12b5), Four(0x15593bd1, 0x0368c033, 0x09aa9f07, 0xb94e16de),
         Four(0x1fdd0f50, 0x9aaa2204, 0x05d7c214, 0xe883d0cb), Four(0xc47120a3, 0x4e6cd4c3, 0xa2028bd9, 0x4e3c50a2))

  function Sums(p: Four, q: Four): Four { Four(Add(p.a, q.a), Add(p.b, q.b), Add(p.c, q.c), Add(p.d, q.d)) }

  lemma LastSums()
    ensures Sums(C10.w, C0.w) == LAST.w && Sums(C10.x, C0.x) == LAST.x
    ensures Sums(C10.y, C0.y) == LAST.y && Sums(C10.z, C0.z) == LAST.z
  {
  }

  lemma FinalState()
    ensures |KEY| == 32 && |NONCE| == 12 && Holds(Final(KEY, 1, NONCE), LAST)
  {
    FirstState();
    TenDoubles(Initial(KEY, 1, NONCE));
    LastSums();
  }

  /** The block of section 2.3.2, as sixteen little-endian words. */
  lemma BlockExample()
    ensures |KEY| == 32 && |NONCE| == 12
    ensures var b := Block(KEY, 1, NONCE);
            && WordAt(b, 0) == 0xe4e7f110 && WordAt(b, 1) == 0x15593bd1
            && WordAt(b, 2) == 0x1fdd0f50 && WordAt(b, 3) == 0xc47120a3
            && WordAt(b, 4) == 0xc7f4d1c7 && WordAt(b, 5) == 0x0368c033
            && WordAt(b, 6) == 0x9aaa2204 && WordAt(b, 7) == 0x4e6cd4c3
            && WordAt(b, 8) == 0x466482d2 && WordAt(b, 9) == 0x09aa9f07
            && WordAt(b, 10) == 0x05d7c214 && WordAt(b, 11) == 0xa2028bd9
            && WordAt(b, 12) == 0xd19c12b5 && WordAt(b, 13) == 0xb94e16de
            && WordAt(b, 14) == 0xe883d0cb && WordAt(b, 15) == 0x4e3c50a2
  {
    FinalState();
    BlockIs(KEY, 1, NONCE);
    var s := Final(KEY, 1, NONCE);
    forall i | 0 <= i < 16
      ensures WordAt(Block(KEY, 1, NONCE), i) == s[i]
    {
      SerializedWord(s, i);
    }
  }
}
