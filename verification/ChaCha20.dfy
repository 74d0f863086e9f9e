/**
 The ChaCha20 block function, kernel/src/crypto_aead.rs.

 Words are `bv32`, so additions wrap and rotations are the machine's. The specification is
 section 2.3 of RFC 8439; beyond it, every round is shown to be undone by another, so the
 state before the final addition determines key, counter and nonce.
 */
module ChaCha20 {
  import opened Bytes

  type word = bv32

  type State = s: seq<word> | |s| == 16 witness seq(16, _ => 0)

  // ---------------------------------------------------------------------------------------
  // Words and bytes
  // ---------------------------------------------------------------------------------------

  function LeWord(b0: byte, b1: byte, b2: byte, b3: byte): word
  {
    (b0 as word) | ((b1 as word) << 8) | ((b2 as word) << 16) | ((b3 as word) << 24)
  }

  function WordBytes(w: word): (b: seq<byte>)
    ensures |b| == 4
  {
    [(w & 0xff) as byte, ((w >> 8) & 0xff) as byte, ((w >> 16) & 0xff) as byte, ((w >> 24) & 0xff) as byte]
  }

  /** Word `i` of a little-endian byte string. */
  function WordAt(b: seq<byte>, i: nat): word
    requires 4 * i + 4 <= |b|
  {
    LeWord(b[4 * i], b[4 * i + 1], b[4 * i + 2], b[4 * i + 3])
  }

  /** The machine word of a u32. */
  function WordOf(n: u32): word
  {
    WordAt(LittleEndian(n, 4), 0)
  }

  lemma WordRoundTrip(b0: byte, b1: byte, b2: byte, b3: byte)
    ensures WordBytes(LeWord(b0, b1, b2, b3)) == [b0, b1, b2, b3]
  {
  }

  lemma WordOfInjective(n: u32, m: u32)
    requires WordOf(n) == WordOf(m)
    ensures n == m
  {
    var a, b := LittleEndian(n, 4), LittleEndian(m, 4);
    WordRoundTrip(a[0], a[1], a[2], a[3]);
    WordRoundTrip(b[0], b[1], b[2], b[3]);
    Widths();
    LittleEndianInjective(n, m, 4);
  }

  /** Byte strings of one length that give the same words are equal. */
  lemma WordsInjective(a: seq<byte>, b: seq<byte>)
    requires |a| == |b| && |a| % 4 == 0
    requires forall i {:trigger WordAt(a, i)} :: 0 <= i < |a| / 4 ==> WordAt(a, i) == WordAt(b, i)
    ensures a == b
  {
    forall j | 0 <= j < |a|
      ensures a[j] == b[j]
    {
      var i := j / 4;
      assert WordAt(a, i) == WordAt(b, i);
      WordRoundTrip(a[4 * i], a[4 * i + 1], a[4 * i + 2], a[4 * i + 3]);
      WordRoundTrip(b[4 * i], b[4 * i + 1], b[4 * i + 2], b[4 * i + 3]);
      assert a[j] == WordBytes(WordAt(a, i))[j - 4 * i];
    }
  }

  // ---------------------------------------------------------------------------------------
  // Section 2.1 of RFC 8439: the quarter round, and its inverse
  // ---------------------------------------------------------------------------------------

  /** One of the four rotation distances. */
  datatype Distance = By16 | By12 | By8 | By7

  function Rotl(x: word, n: Distance): word
  {
    match n
    case By16 => x.RotateLeft(16)
    case By12 => x.RotateLeft(12)
    case By8 => x.RotateLeft(8)
    case By7 => x.RotateLeft(7)
  }

  function Rotr(x: word, n: Distance): word
  {
    match n
    case By16 => x.RotateRight(16)
    case By12 => x.RotateRight(12)
    case By8 => x.RotateRight(8)
    case By7 => x.RotateRight(7)
  }

  function Add(x: word, y: word): word { x + y }

  function Sub(x: word, y: word): word { x - y }

  lemma AddSub(x: word, y: word)
    ensures Sub(Add(x, y), y) == x && Add(Sub(x, y), y) == x
  {
    assert Sub(x + y, y) == x;
    assert Add(x - y, y) == x;
  }

  lemma Rotation(x: word, n: Distance)
    ensures Rotr(Rotl(x, n), n) == x && Rotl(Rotr(x, n), n) == x
  {
    match n
    case By16 => Rotation16(x);
    case By12 => Rotation12(x);
    case By8 => Rotation8(x);
    case By7 => Rotation7(x);
  }

  lemma Rotation16(x: word) ensures Rotr(Rotl(x, By16), By16) == x && Rotl(Rotr(x, By16), By16) == x {}
  lemma Rotation12(x: word) ensures Rotr(Rotl(x, By12), By12) == x && Rotl(Rotr(x, By12), By12) == x {}
  lemma Rotation8(x: word) ensures Rotr(Rotl(x, By8), By8) == x && Rotl(Rotr(x, By8), By8) == x {}
  lemma Rotation7(x: word) ensures Rotr(Rotl(x, By7), By7) == x && Rotl(Rotr(x, By7), By7) == x {}

  /** Exclusive-or with x, then rotate. */
  function Turn(z: word, x: word, n: Distance): word { Rotl(z ^ x, n) }

  function Unturn(z: word, x: word, n: Distance): word { Rotr(z, n) ^ x }

  lemma TurnUnturn(z: word, x: word, n: Distance)
    ensures Unturn(Turn(z, x, n), x, n) == z && Turn(Unturn(z, x, n), x, n) == z
  {
    Rotation(z ^ x, n);
    Rotation(z, n);
  }

  /** One line of the quarter round: s[x] += s[y]; s[z] ^= s[x]; s[z] <<<= n. */
  function Line(s: State, x: nat, y: nat, z: nat, n: Distance): State
    requires x < 16 && y < 16 && z < 16
  {
    var t := s[x := Add(s[x], s[y])];
    t[z := Turn(t[z], t[x], n)]
  }

  function Unline(s: State, x: nat, y: nat, z: nat, n: Distance): State
    requires x < 16 && y < 16 && z < 16
  {
    var t := s[z := Unturn(s[z], s[x], n)];
    t[x := Sub(t[x], t[y])]
  }

  lemma LineInvertible(s: State, x: nat, y: nat, z: nat, n: Distance)
    requires x < 16 && y < 16 && z < 16 && x != y && y != z && x != z
    ensures Unline(Line(s, x, y, z, n), x, y, z, n) == s
    ensures Line(Unline(s, x, y, z, n), x, y, z, n) == s
  {
    LineUnline(s, x, y, z, n);
    UnlineLine(s, x, y, z, n);
  }

  lemma LineUnline(s: State, x: nat, y: nat, z: nat, n: Distance)
    requires x < 16 && y < 16 && z < 16 && x != y && y != z && x != z
    ensures Unline(Line(s, x, y, z, n), x, y, z, n) == s
  {
    AddSub(s[x], s[y]);
    TurnUnturn(s[z], Add(s[x], s[y]), n);
  }

  lemma UnlineLine(s: State, x: nat, y: nat, z: nat, n: Distance)
    requires x < 16 && y < 16 && z < 16 && x != y && y != z && x != z
    ensures Line(Unline(s, x, y, z, n), x, y, z, n) == s
  {
    AddSub(s[x], s[y]);
    TurnUnturn(s[z], s[x], n);
  }

  /** The four words a quarter round works on. */
  datatype Slots = Slots(a: nat, b: nat, c: nat, d: nat) {
    predicate Distinct() {
      a < 16 && b < 16 && c < 16 && d < 16 && a != b && a != c && a != d && b != c && b != d && c != d
    }
  }

  function Quarter(s: State, i: Slots): State
    requires i.Distinct()
  {
    var s1 := Line(s, i.a, i.b, i.d, By16);
    var s2 := Line(s1, i.c, i.d, i.b, By12);
    var s3 := Line(s2, i.a, i.b, i.d, By8);
    Line(s3, i.c, i.d, i.b, By7)
  }

  function Unquarter(s: State, i: Slots): State
    requires i.Distinct()
  {
    var s3 := Unline(s, i.c, i.d, i.b, By7);
    var s2 := Unline(s3, i.a, i.b, i.d, By8);
    var s1 := Unline(s2, i.c, i.d, i.b, By12);
    Unline(s1, i.a, i.b, i.d, By16)
  }

  lemma QuarterInvertible(s: State, i: Slots)
    requires i.Distinct()
    ensures Unquarter(Quarter(s, i), i) == s
    ensures Quarter(Unquarter(s, i), i) == s
  {
    var s1 := Line(s, i.a, i.b, i.d, By16);
    var s2 := Line(s1, i.c, i.d, i.b, By12);
    var s3 := Line(s2, i.a, i.b, i.d, By8);
    LineInvertible(s3, i.c, i.d, i.b, By7);
    LineInvertible(s2, i.a, i.b, i.d, By8);
    LineInvertible(s1, i.c, i.d, i.b, By12);
    LineInvertible(s, i.a, i.b, i.d, By16);
    var t3 := Unline(s, i.c, i.d, i.b, By7);
    var t2 := Unline(t3, i.a, i.b, i.d, By8);
    var t1 := Unline(t2, i.c, i.d, i.b, By12);
    LineInvertible(t1, i.a, i.b, i.d, By16);
    LineInvertible(t2, i.c, i.d, i.b, By12);
    LineInvertible(t3, i.a, i.b, i.d, By8);
    LineInvertible(s, i.c, i.d, i.b, By7);
  }

  // ---------------------------------------------------------------------------------------
  // Section 2.3 of RFC 8439: the block function
  // ---------------------------------------------------------------------------------------

  predicate AllDistinct(r: seq<Slots>) { forall i :: 0 <= i < |r| ==> r[i].Distinct() }

  /** Four column rounds, then four diagonal rounds. */
  function DoubleRound(): (r: seq<Slots>)
    ensures AllDistinct(r)
  {
    [Slots(0, 4, 8, 12), Slots(1, 5, 9, 13), Slots(2, 6, 10, 14), Slots(3, 7, 11, 15),
     Slots(0, 5, 10, 15), Slots(1, 6, 11, 12), Slots(2, 7, 8, 13), Slots(3, 4, 9, 14)]
  }

  function Apply(s: State, r: seq<Slots>): State
    requires AllDistinct(r)
  {
    if r == [] then s else Quarter(Apply(s, r[..|r| - 1]), r[|r| - 1])
  }

  /** The schedule `r`, `n` times over. */
  function Repeat(r: seq<Slots>, n: nat): (t: seq<Slots>)
    requires AllDistinct(r)
    ensures AllDistinct(t)
  {
    if n == 0 then [] else Repeat(r, n - 1) + r
  }

  /** The twenty rounds: ten times a double round. */
  const TIMES: nat := 10

  function Schedule(): (r: seq<Slots>)
    ensures AllDistinct(r)
  {
    Repeat(DoubleRound(), TIMES)
  }

  const SIGMA: seq<word> := [0x61707865, 0x3320646e, 0x79622d32, 0x6b206574]

  /** Constants, key, counter, nonce. */
  function Initial(key: seq<byte>, counter: u32, nonce: seq<byte>): State
    requires |key| == 32 && |nonce| == 12
  {
    seq(16, i requires 0 <= i < 16 =>
      if i < 4 then SIGMA[i]
      else if i < 12 then WordAt(key, i - 4)
      else if i == 12 then WordOf(counter)
      else WordAt(nonce, i - 13))
  }

  function Sum(s: State, t: State): State
  {
    seq(16, i requires 0 <= i < 16 => Add(s[i], t[i]))
  }

  /** The words one after another, each little-endian. */
  function Serialize(s: seq<word>): (b: seq<byte>)
    ensures |b| == 4 * |s|
  {
    if s == [] then [] else Serialize(s[..|s| - 1]) + WordBytes(s[|s| - 1])
  }

  /** The state after the rounds and the final addition. */
  function Final(key: seq<byte>, counter: u32, nonce: seq<byte>): State
    requires |key| == 32 && |nonce| == 12
  {
    Sum(Apply(Initial(key, counter, nonce), Schedule()), Initial(key, counter, nonce))
  }

  function BlockByte(key: seq<byte>, counter: u32, nonce: seq<byte>, i: nat): byte
    requires |key| == 32 && |nonce| == 12 && i < 64
  {
    Serialize(Final(key, counter, nonce))[i]
  }

  /** The 64-byte keystream block. */
  function Block(key: seq<byte>, counter: u32, nonce: seq<byte>): (b: seq<byte>)
    requires |key| == 32 && |nonce| == 12
    ensures |b| == 64
  {
    seq(64, i requires 0 <= i < 64 => BlockByte(key, counter, nonce, i))
  }

  lemma BlockIs(key: seq<byte>, counter: u32, nonce: seq<byte>)
    requires |key| == 32 && |nonce| == 12
    ensures Block(key, counter, nonce) == Serialize(Final(key, counter, nonce))
  {
  }

  // ---------------------------------------------------------------------------------------
  // The rounds lose nothing
  // ---------------------------------------------------------------------------------------

  function Unapply(s: State, r: seq<Slots>): State
    requires AllDistinct(r)
    decreases |r|
  {
    if r == [] then s else Unapply(Unquarter(s, r[|r| - 1]), r[..|r| - 1])
  }

  /** Every schedule of quarter rounds is a bijection of the 512-bit states, with `Unapply` as its inverse. */
  lemma {:induction false} ApplyInvertible(s: State, r: seq<Slots>)
    requires AllDistinct(r)
    ensures Unapply(Apply(s, r), r) == s
    ensures Apply(Unapply(s, r), r) == s
    decreases |r|
  {
    if r != [] {
      var r', last := r[..|r| - 1], r[|r| - 1];
      QuarterInvertible(Apply(s, r'), last);
      ApplyInvertible(s, r');
      QuarterInvertible(s, last);
      ApplyInvertible(Unquarter(s, last), r');
    }
  }

  lemma InitialInjective(key: seq<byte>, counter: u32, nonce: seq<byte>,
                         key': seq<byte>, counter': u32, nonce': seq<byte>)
    requires |key| == |key'| == 32 && |nonce| == |nonce'| == 12
    requires Initial(key, counter, nonce) == Initial(key', counter', nonce')
    ensures key == key' && counter == counter' && nonce == nonce'
  {
    var s, t := Initial(key, counter, nonce), Initial(key', counter', nonce');
    assert s[12] == WordOf(counter) && t[12] == WordOf(counter');
    WordOfInjective(counter, counter');
    assert forall i :: 0 <= i < 8 ==> s[4 + i] == WordAt(key, i) && t[4 + i] == WordAt(key', i);
    WordsInjective(key, key');
    assert forall i :: 0 <= i < 3 ==> s[13 + i] == WordAt(nonce, i) && t[13 + i] == WordAt(nonce', i);
    WordsInjective(nonce, nonce');
  }

  /** Different keys, counters or nonces are still apart after the ten double rounds. */
  lemma RoundsSeparate(key: seq<byte>, counter: u32, nonce: seq<byte>,
                       key': seq<byte>, counter': u32, nonce': seq<byte>)
    requires |key| == |key'| == 32 && |nonce| == |nonce'| == 12
    requires key != key' || counter != counter' || nonce != nonce'
    ensures Apply(Initial(key, counter, nonce), Schedule())
         != Apply(Initial(key', counter', nonce'), Schedule())
  {
    if Initial(key, counter, nonce) == Initial(key', counter', nonce') {
      InitialInjective(key, counter, nonce, key', counter', nonce');
    }
    ApplySeparates(Initial(key, counter, nonce), Initial(key', counter', nonce'), Schedule());
  }

  lemma ApplySeparates(s: State, t: State, r: seq<Slots>)
    requires AllDistinct(r) && s != t
    ensures Apply(s, r) != Apply(t, r)
  {
    ApplyInvertible(s, r);
    ApplyInvertible(t, r);
  }

  // ---------------------------------------------------------------------------------------
  // The kernel's in-place form
  // ---------------------------------------------------------------------------------------

  method LineInPlace(s: array<word>, x: nat, y: nat, z: nat, n: Distance)
    requires s.Length == 16 && x < 16 && y < 16 && z < 16
    modifies s
    ensures s[..] == Line(old(s[..]), x, y, z, n)
  {
    s[x] := Add(s[x], s[y]);
    s[z] := Turn(s[z], s[x], n);
  }

  method Qr(s: array<word>, i: Slots)
    requires s.Length == 16 && i.Distinct()
    modifies s
    ensures s[..] == Quarter(old(s[..]), i)
  {
    LineInPlace(s, i.a, i.b, i.d, By16);
    LineInPlace(s, i.c, i.d, i.b, By12);
    LineInPlace(s, i.a, i.b, i.d, By8);
    LineInPlace(s, i.c, i.d, i.b, By7);
  }

  lemma {:induction false} ApplyConcat(s: State, a: seq<Slots>, b: seq<Slots>)
    requires AllDistinct(a) && AllDistinct(b)
    ensures Apply(s, a + b) == Apply(Apply(s, a), b)
  {
    if b == [] {
      assert a + b == a;
    } else {
      ApplyConcat(s, a, b[..|b| - 1]);
      assert (a + b)[..|a + b| - 1] == a + b[..|b| - 1];
    }
  }

  method RunOnce(s: array<word>, r: seq<Slots>)
    requires s.Length == 16 && AllDistinct(r)
    modifies s
    ensures s[..] == Apply(old(s[..]), r)
  {
    for k := 0 to |r|
      invariant s[..] == Apply(old(s[..]), r[..k])
    {
      assert r[..k + 1][..k] == r[..k];
      Qr(s, r[k]);
    }
    assert r[..|r|] == r;
  }

  method RunRounds(s: array<word>, r: seq<Slots>, times: nat)
    requires s.Length == 16 && AllDistinct(r)
    modifies s
    ensures s[..] == Apply(old(s[..]), Repeat(r, times))
  {
    for n := 0 to times
      invariant s[..] == Apply(old(s[..]), Repeat(r, n))
    {
      ApplyConcat(old(s[..]), Repeat(r, n), r);
      RunOnce(s, r);
    }
  }

  method LoadKey(s: array<word>, key: seq<byte>)
    requires s.Length == 16 && |key| == 32
    modifies s
    ensures forall j :: 0 <= j < 16 ==> s[j] == if 4 <= j < 12 then WordAt(key, j - 4) else old(s[j])
  {
    for i := 0 to 8
      invariant forall j :: 0 <= j < 16 ==> s[j] == if 4 <= j < 4 + i then WordAt(key, j - 4) else old(s[j])
    {
      s[4 + i] := WordAt(key, i);
    }
  }

  method LoadState(key: seq<byte>, counter: u32, nonce: seq<byte>) returns (s: array<word>)
    requires |key| == 32 && |nonce| == 12
    ensures fresh(s) && s.Length == 16 && s[..] == Initial(key, counter, nonce)
  {
    s := new word[16](_ => 0);
    s[0], s[1], s[2], s[3] := 0x61707865, 0x3320646e, 0x79622d32, 0x6b206574;
    LoadKey(s, key);
    s[12] := WordOf(counter);
    s[13], s[14], s[15] := WordAt(nonce, 0), WordAt(nonce, 1), WordAt(nonce, 2);
  }

  method AddInPlace(s: array<word>, init: State)
    requires s.Length == 16
    modifies s
    ensures s[..] == Sum(old(s[..]), init)
  {
    for i := 0 to 16
      invariant forall j :: 0 <= j < i ==> s[j] == Add(old(s[j]), init[j])
      invariant forall j :: i <= j < 16 ==> s[j] == old(s[j])
    {
      s[i] := Add(s[i], init[i]);
    }
  }

  /** Fill the state, run the rounds in place, add the initial state, write the words out. */
  method KeystreamBlock(key: seq<byte>, counter: u32, nonce: seq<byte>) returns (out: seq<byte>)
    requires |key| == 32 && |nonce| == 12
    ensures out == Block(key, counter, nonce)
  {
    var s := LoadState(key, counter, nonce);
    var init := s[..];
    RunRounds(s, DoubleRound(), TIMES);
    AddInPlace(s, init);
    out := WriteWords(s[..]);
    BlockIs(key, counter, nonce);
  }

  method WriteWords(s: seq<word>) returns (out: seq<byte>)
    ensures out == Serialize(s)
  {
    out := [];
    for i := 0 to |s|
      invariant out == Serialize(s[..i])
    {
      assert s[..i + 1][..i] == s[..i];
      out := out + WordBytes(s[i]);
    }
    assert s[..|s|] == s;
  }
}
