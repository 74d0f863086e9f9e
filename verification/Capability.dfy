/**
 Temporal capabilities, kernel/src/axiom/capability.rs: minting, verification, derivation, and
 what holds along every chain of derivations.
 */
module Capability {
  import opened Bytes
  import Sha256

  type u8 = n: nat | n < 256

  /** A set of rights, one bit each. */
  type Rights = bv8

  const DERIVE: Rights := 0x08
  const MAX_DEPTH: nat := 64

  datatype Cap = Cap(
    objectId: u64, rights: Rights, expiresAt: u64, depth: u8, parentHash: Bytes32, mac: Bytes32)

  /** Byte `i` of the 50 bytes the MAC covers. */
  function AuthByte(c: Cap, i: nat): byte
    requires i < 50
  {
    if i < 8 then LittleEndian(c.objectId, 8)[i]
    else if i == 8 then c.rights
    else if i < 17 then LittleEndian(c.expiresAt, 8)[i - 9]
    else if i == 17 then c.depth as byte
    else c.parentHash[i - 18]
  }

  function AuthBytes(c: Cap): (b: seq<byte>)
    ensures |b| == 50
  {
    seq(50, i requires 0 <= i < 50 => AuthByte(c, i))
  }

  /** The MAC a capability should carry under a key. */
  function MacUnder(k: Bytes32, c: Cap): Bytes32 { Sha256.Hmac(k, AuthBytes(c)) }

  /** A capability with the MAC it should carry. */
  function Stamped(k: Bytes32, c: Cap): Cap { c.(mac := MacUnder(k, c)) }

  function Mint(k: Bytes32, objectId: u64, rights: Rights, expiresAt: u64): Cap
  {
    Stamped(k, Cap(objectId, rights, expiresAt, 0, Zeros(32), Zeros(32)))
  }

  predicate Verify(k: Bytes32, c: Cap, now: u64)
  {
    if now >= c.expiresAt then false else MacUnder(k, c) == c.mac
  }

  predicate Subset(r: Rights, s: Rights) { r & !s == 0 }

  function Derive(k: Bytes32, c: Cap, now: u64, newRights: Rights, newExpiresAt: u64): Option<Cap>
  {
    if !Verify(k, c, now) then None
    else if c.rights & DERIVE == 0 then None
    else if !Subset(newRights, c.rights) then None
    else if newExpiresAt > c.expiresAt then None
    else if c.depth + 1 > 255 then None
    else if c.depth + 1 > MAX_DEPTH then None
    else Some(Stamped(k, Cap(c.objectId, newRights, newExpiresAt, c.depth + 1, Sha256.Digest(c.mac), Zeros(32))))
  }

  // ---------------------------------------------------------------------------------------
  // Bytes and rights
  // ---------------------------------------------------------------------------------------

  lemma AuthBytesParts(c: Cap)
    ensures var b := AuthBytes(c);
            && b[0..8] == LittleEndian(c.objectId, 8)
            && b[8] == c.rights
            && b[9..17] == LittleEndian(c.expiresAt, 8)
            && b[17] == c.depth as byte
            && b[18..50] == c.parentHash
  {
  }

  /** The bytes determine every covered field. */
  lemma AuthBytesInjective(a: Cap, b: Cap)
    requires AuthBytes(a) == AuthBytes(b)
    ensures a.(mac := b.mac) == b
  {
    AuthBytesParts(a);
    AuthBytesParts(b);
    Widths();
    LittleEndianInjective(a.objectId, b.objectId, 8);
    LittleEndianInjective(a.expiresAt, b.expiresAt, 8);
    ByteRoundTrip(a.depth);
    ByteRoundTrip(b.depth);
  }

  lemma StampedAuthentic(k: Bytes32, c: Cap)
    ensures MacUnder(k, Stamped(k, c)) == Stamped(k, c).mac
  {
    assert AuthBytes(Stamped(k, c)) == AuthBytes(c);
  }

  lemma SubsetTransitive(r: Rights, s: Rights, t: Rights)
    requires Subset(r, s) && Subset(s, t)
    ensures Subset(r, t)
  {
  }

  // ---------------------------------------------------------------------------------------
  // One derivation
  // ---------------------------------------------------------------------------------------

  /** A minted capability is a root with what was asked for, and verifies exactly before its expiry. */
  lemma MintExact(k: Bytes32, objectId: u64, rights: Rights, expiresAt: u64, now: u64)
    ensures var c := Mint(k, objectId, rights, expiresAt);
            && c.objectId == objectId && c.rights == rights && c.expiresAt == expiresAt
            && c.depth == 0 && c.parentHash == Zeros(32) && c.mac == Sha256.Hmac(k, AuthBytes(c))
            && (Verify(k, c, now) <==> now < expiresAt)
  {
    StampedAuthentic(k, Cap(objectId, rights, expiresAt, 0, Zeros(32), Zeros(32)));
  }

  /** Verification: not expired, and the MAC the key gives the covered bytes. */
  lemma VerifyExact(k: Bytes32, c: Cap, now: u64)
    ensures Verify(k, c, now) <==> now < c.expiresAt && c.mac == Sha256.Hmac(k, AuthBytes(c))
  {
  }

  /** A set of rights within another adds no bit to it. */
  lemma SubsetBits(r: Rights, s: Rights)
    ensures Subset(r, s) <==> r | s == s
  {
  }

  lemma NoNewBit(r: Rights, s: Rights, b: Rights)
    requires r | s == s && s & b == 0
    ensures r & b == 0
  {
    assert r & b == (r & b) & (s & b) by {
      assert r == r & s;
    }
  }

  /** What a derivation makes of them. */
  predicate ChildOf(k: Bytes32, p: Cap, c: Cap)
  {
    && c.objectId == p.objectId
    && c.depth == p.depth + 1
    && c.parentHash == Sha256.Digest(p.mac)
    && MacUnder(k, c) == c.mac
  }

  lemma DeriveExact(k: Bytes32, p: Cap, now: u64, newRights: Rights, newExpiresAt: u64)
    ensures var r := Derive(k, p, now, newRights, newExpiresAt);
            && (r.Some? <==>
                && now < p.expiresAt && p.mac == Sha256.Hmac(k, AuthBytes(p))
                && p.rights & 0x08 != 0 && newRights | p.rights == p.rights
                && newExpiresAt <= p.expiresAt && p.depth < 64)
            && (r.Some? ==>
                && ChildOf(k, p, r.value)
                && r.value.rights == newRights && r.value.expiresAt == newExpiresAt && r.value.objectId == p.objectId
                && r.value.depth == p.depth + 1 && r.value.parentHash == Sha256.Digest(p.mac)
                && r.value.mac == Sha256.Hmac(k, AuthBytes(r.value)))
  {
    SubsetBits(newRights, p.rights);
    var c := Derive(k, p, now, newRights, newExpiresAt);
    if c.Some? {
      StampedAuthentic(k, Cap(p.objectId, newRights, newExpiresAt, p.depth + 1, Sha256.Digest(p.mac), Zeros(32)));
    }
  }

  // ---------------------------------------------------------------------------------------
  // Chains of derivations
  // ---------------------------------------------------------------------------------------

  predicate IsRoot(k: Bytes32, c: Cap) { c == Mint(k, c.objectId, c.rights, c.expiresAt) }

  /** `c` was derived from `p` at some time. */
  ghost predicate Derived(k: Bytes32, p: Cap, c: Cap)
  {
    exists now: u64 :: Derive(k, p, now, c.rights, c.expiresAt) == Some(c)
  }

  /** A minted capability, and each of the others derived from the one before it. */
  ghost predicate IsChain(k: Bytes32, caps: seq<Cap>)
  {
    && caps != [] && IsRoot(k, caps[0])
    && forall i, j :: 0 <= i < |caps| && i < j < |caps| && j == i + 1 ==> Derived(k, caps[i], caps[j])
  }

  /** The fields a derivation can only narrow. */
  predicate Attenuates(p: Cap, c: Cap)
  {
    && c.objectId == p.objectId && Subset(c.rights, p.rights) && c.expiresAt <= p.expiresAt
    && p.rights & DERIVE != 0 && c.depth == p.depth + 1 <= MAX_DEPTH
  }

  predicate Attenuating(caps: seq<Cap>)
  {
    && caps != [] && caps[0].depth == 0
    && forall i, j :: 0 <= i < |caps| && i < j < |caps| && j == i + 1 ==> Attenuates(caps[i], caps[j])
  }

  lemma DerivedExact(k: Bytes32, p: Cap, c: Cap)
    ensures Derived(k, p, c) <==>
              Attenuates(p, c) && ChildOf(k, p, c) && MacUnder(k, p) == p.mac && p.expiresAt > 0
  {
    if Derived(k, p, c) {
      var now: u64 :| Derive(k, p, now, c.rights, c.expiresAt) == Some(c);
      DeriveExact(k, p, now, c.rights, c.expiresAt);
    }
    if Attenuates(p, c) && ChildOf(k, p, c) && MacUnder(k, p) == p.mac && p.expiresAt > 0 {
      DeriveExact(k, p, 0, c.rights, c.expiresAt);
      SameChild(k, p, Derive(k, p, 0, c.rights, c.expiresAt).value, c);
    }
  }

  lemma SameChild(k: Bytes32, p: Cap, c: Cap, d: Cap)
    requires ChildOf(k, p, c) && ChildOf(k, p, d) && c.rights == d.rights && c.expiresAt == d.expiresAt
    ensures c == d
  {
    assert c.(mac := d.mac) == d;
    assert AuthBytes(c) == AuthBytes(d);
  }

  lemma ChainFacts(k: Bytes32, caps: seq<Cap>)
    requires IsChain(k, caps)
    ensures Attenuating(caps)
    ensures forall i :: 0 <= i < |caps| ==> MacUnder(k, caps[i]) == caps[i].mac
  {
    StampedAuthentic(k, Cap(caps[0].objectId, caps[0].rights, caps[0].expiresAt, 0, Zeros(32), Zeros(32)));
    forall i, j | 0 <= i < |caps| && i < j < |caps| && j == i + 1
      ensures Attenuates(caps[i], caps[j]) && MacUnder(k, caps[j]) == caps[j].mac
    {
      assert Derived(k, caps[i], caps[j]);
      DerivedExact(k, caps[i], caps[j]);
    }
    forall i | 0 <= i < |caps|
      ensures MacUnder(k, caps[i]) == caps[i].mac
    {
      if i > 0 {
        assert Derived(k, caps[i - 1], caps[i]);
        DerivedExact(k, caps[i - 1], caps[i]);
      }
    }
  }

  /** Along a chain, nothing ever widens again. */
  lemma {:induction false} NarrowsAlong(caps: seq<Cap>, i: nat, j: nat)
    requires Attenuating(caps) && i <= j < |caps|
    ensures caps[j].objectId == caps[i].objectId
    ensures Subset(caps[j].rights, caps[i].rights)
    ensures caps[j].expiresAt <= caps[i].expiresAt
    ensures i < j ==> caps[i].rights & DERIVE != 0
    ensures caps[j].depth == j <= MAX_DEPTH
    decreases j
  {
    SelfSubset(caps[j].rights);
    if j > 0 {
      assert Attenuates(caps[j - 1], caps[j]);
      NarrowsAlong(caps, if i < j then i else 0, j - 1);
      if i < j {
        SubsetTransitive(caps[j].rights, caps[j - 1].rights, caps[i].rights);
      }
    }
  }

  lemma SelfSubset(r: Rights)
    ensures Subset(r, r)
  {
  }

  /**
   Every capability reached by minting and deriving, against every one of its ancestors: the same
   object, no right and no moment of life the ancestor did not have, the ancestor able to derive,
   and the depth the number of derivations, at most 64.
   */
  lemma ChainNarrows(k: Bytes32, caps: seq<Cap>, i: nat, j: nat)
    requires IsChain(k, caps) && i <= j < |caps|
    ensures caps[j].objectId == caps[i].objectId
    ensures caps[j].rights | caps[i].rights == caps[i].rights
    ensures caps[j].expiresAt <= caps[i].expiresAt
    ensures i < j ==> caps[i].rights & 0x08 != 0
    ensures caps[j].depth == j <= 64
  {
    ChainFacts(k, caps);
    NarrowsAlong(caps, i, j);
    SubsetBits(caps[j].rights, caps[i].rights);
  }

  /** A right any ancestor lacks, no descendant has. */
  lemma NoRightGained(k: Bytes32, caps: seq<Cap>, i: nat, j: nat, right: Rights)
    requires IsChain(k, caps) && i <= j < |caps| && caps[i].rights & right == 0
    ensures caps[j].rights & right == 0
  {
    ChainNarrows(k, caps, i, j);
    NoNewBit(caps[j].rights, caps[i].rights, right);
  }

  /** It verifies at exactly the times before its expiry, and then all its ancestors do. */
  lemma ChainLives(k: Bytes32, caps: seq<Cap>, i: nat, j: nat, now: u64)
    requires IsChain(k, caps) && i <= j < |caps|
    ensures Verify(k, caps[j], now) <==> now < caps[j].expiresAt
    ensures Verify(k, caps[j], now) ==> Verify(k, caps[i], now)
  {
    ChainFacts(k, caps);
    NarrowsAlong(caps, i, j);
  }

  /** A chain can be carried on exactly when its last capability can be alive, may derive and is not too deep. */
  lemma ChainExtends(k: Bytes32, caps: seq<Cap>)
    requires IsChain(k, caps)
    ensures var last := caps[|caps| - 1];
            (exists c :: IsChain(k, caps + [c])) <==>
              last.expiresAt > 0 && last.rights & DERIVE != 0 && |caps| <= MAX_DEPTH
  {
    var n := |caps| - 1;
    ChainFacts(k, caps);
    NarrowsAlong(caps, n, n);
    if c :| IsChain(k, caps + [c]) {
      ChainLink(k, caps, c);
      DerivedExact(k, caps[n], c);
    }
    if caps[n].expiresAt > 0 && caps[n].rights & DERIVE != 0 && |caps| <= MAX_DEPTH {
      var last := caps[n];
      SelfSubset(last.rights);
      DeriveExact(k, last, 0, last.rights, last.expiresAt);
      var c := Derive(k, last, 0, last.rights, last.expiresAt).value;
      assert Derived(k, last, c);
      ChainLink(k, caps, c);
    }
  }

  lemma ChainLink(k: Bytes32, caps: seq<Cap>, c: Cap)
    requires IsChain(k, caps)
    ensures IsChain(k, caps + [c]) <==> Derived(k, caps[|caps| - 1], c)
  {
    var n, caps' := |caps|, caps + [c];
    assert caps'[n - 1] == caps[n - 1] && caps'[n] == c;
    assert forall i :: 0 <= i < n ==> caps'[i] == caps[i];
  }

  // ---------------------------------------------------------------------------------------
  // What a MAC commits to
  // ---------------------------------------------------------------------------------------

  /** The MACs of two capabilities, or the strings their computation hashes, collide. */
  predicate CapsCollide(k: Bytes32, a: Cap, b: Cap)
  {
    || Sha256.HashCollision(a.mac, b.mac)
    || Sha256.HmacStringsCollide(k, AuthBytes(a), k, AuthBytes(b))
  }

  /** Authentic capabilities with one MAC are equal, or the strings their MACs hash collide. */
  lemma SameMac(k: Bytes32, a: Cap, b: Cap)
    requires MacUnder(k, a) == a.mac && MacUnder(k, b) == b.mac && a.mac == b.mac
    ensures a == b || Sha256.HmacStringsCollide(k, AuthBytes(a), k, AuthBytes(b))
  {
    if AuthBytes(a) == AuthBytes(b) {
      AuthBytesInjective(a, b);
    } else {
      Sha256.HmacCollision(k, AuthBytes(a), k, AuthBytes(b));
    }
  }

  /** Two capabilities with one MAC, or with MACs of one digest. */
  predicate Meet(a: Cap, b: Cap)
  {
    (a != b && a.mac == b.mac) || Sha256.HashCollision(a.mac, b.mac)
  }

  /** Each capability is as deep as it is far along, and names the MAC of the one before it. */
  predicate Descends(caps: seq<Cap>)
  {
    && (forall i :: 0 <= i < |caps| ==> caps[i].depth == i)
    && forall i, j :: 0 <= i < |caps| && i < j < |caps| && j == i + 1 ==>
         caps[j].parentHash == Sha256.Digest(caps[i].mac)
  }

  lemma ChainDescends(k: Bytes32, caps: seq<Cap>)
    requires IsChain(k, caps)
    ensures Descends(caps)
  {
    forall i | 0 <= i < |caps|
      ensures caps[i].depth == i
    {
      ChainNarrows(k, caps, i, i);
    }
    forall i, j | 0 <= i < |caps| && i < j < |caps| && j == i + 1
      ensures caps[j].parentHash == Sha256.Digest(caps[i].mac)
    {
      assert Derived(k, caps[i], caps[j]);
      DerivedExact(k, caps[i], caps[j]);
    }
  }

  /** Lines of descent that end in one MAC are equal, or part somewhere and meet again. */
  lemma {:induction false} EqualOrMeet(v: seq<Cap>, w: seq<Cap>) returns (i: nat, j: nat)
    requires Descends(v) && Descends(w) && v != [] && w != []
    requires v[|v| - 1].mac == w[|w| - 1].mac
    ensures i < |v| && j < |w| && (v == w || Meet(v[i], w[j]))
    decreases |v|
  {
    var n, m := |v| - 1, |w| - 1;
    i, j := n, m;
    if v[n] == w[m] {
      if n > 0 {
        assert v[n].parentHash == Sha256.Digest(v[n - 1].mac) && w[n].parentHash == Sha256.Digest(w[n - 1].mac);
        i, j := n - 1, n - 1;
        if v[i].mac == w[j].mac {
          i, j := EqualOrMeet(v[..n], w[..n]);
        }
      }
      assert v == v[..n] + [v[n]] && w == w[..m] + [w[m]];
    }
  }

  /**
   A MAC commits to the whole line of descent: two chains under one key that end in the same MAC
   are the same chain, or a capability of the one and a capability of the other collide.
   */
  lemma MacCommits(k: Bytes32, v: seq<Cap>, w: seq<Cap>) returns (i: nat, j: nat)
    requires IsChain(k, v) && IsChain(k, w)
    requires v[|v| - 1].mac == w[|w| - 1].mac
    ensures v == w || (i < |v| && j < |w| && CapsCollide(k, v[i], w[j]))
  {
    ChainDescends(k, v);
    ChainDescends(k, w);
    i, j := EqualOrMeet(v, w);
    ChainFacts(k, v);
    ChainFacts(k, w);
    if v[i].mac == w[j].mac {
      SameMac(k, v[i], w[j]);
    }
  }
}
