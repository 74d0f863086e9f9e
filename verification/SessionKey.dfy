/**
 Session keys for encrypted communication, kernel/src/crypto_aead.rs: HKDF of RFC 5869 over the
 hash of a capability chain, bound to the two endpoints.
 */
module SessionKey {
  import opened Bytes
  import Sha256

  const LABEL: string := "AXIOM-EIPC-v1"

  function Extract(salt: Bytes32, ikm: seq<byte>): Bytes32 { Sha256.Hmac(salt, ikm) }

  /** The first block T(1) of the expansion; the buffer holds 127 bytes of `info` at most. */
  function Expand(prk: Bytes32, info: seq<byte>): Bytes32
  {
    Sha256.Hmac(prk, info[..if |info| < 127 then |info| else 127] + [1])
  }

  /** The label and the two endpoints. */
  function Info(sender: u32, receiver: u32): (b: seq<byte>)
    ensures |b| == 21
  {
    Ascii(LABEL) + LittleEndian(sender, 4) + LittleEndian(receiver, 4)
  }

  function Key(chainHash: Bytes32, sender: u32, receiver: u32): Bytes32
  {
    Expand(Extract(Zeros(32), chainHash), Info(sender, receiver))
  }

  lemma InfoInjective(s: u32, r: u32, s': u32, r': u32)
    requires Info(s, r) == Info(s', r')
    ensures s == s' && r == r'
  {
    var a, b := Info(s, r), Info(s', r');
    assert a[13..17] == LittleEndian(s, 4) && b[13..17] == LittleEndian(s', 4);
    assert a[17..] == LittleEndian(r, 4) && b[17..] == LittleEndian(r', 4);
    Widths();
    LittleEndianInjective(s, s', 4);
    LittleEndianInjective(r, r', 4);
  }

  /**
   A key belongs to one chain and one pair of endpoints, in that direction: if two derivations give
   the same key, they had the same inputs, or the strings their expansions or their extractions hash
   collide.
   */
  lemma KeysSeparate(h: Bytes32, s: u32, r: u32, h': Bytes32, s': u32, r': u32)
    requires Key(h, s, r) == Key(h', s', r')
    ensures || (h == h' && s == s' && r == r')
            || Sha256.HmacStringsCollide(Extract(Zeros(32), h), Info(s, r) + [1],
                                         Extract(Zeros(32), h'), Info(s', r') + [1])
            || Sha256.HmacStringsCollide(Zeros(32), h, Zeros(32), h')
  {
    var prk, prk', a, b := Extract(Zeros(32), h), Extract(Zeros(32), h'), Info(s, r), Info(s', r');
    Sha256.SplitEqual(a, b, [1], [1]);
    assert a[..21] == a && b[..21] == b;
    if prk != prk' || a != b {
      if Sha256.BlockKey(prk) == Sha256.BlockKey(prk') {
        Sha256.BlockKeyInjective(prk, prk');
      }
      Sha256.HmacCollision(prk, a + [1], prk', b + [1]);
    } else {
      InfoInjective(s, r, s', r');
      if h != h' {
        Sha256.HmacCollision(Zeros(32), h, Zeros(32), h');
      }
    }
  }

  /** Copy `info` into the buffer, append the block number, and take the MAC of the part in use. */
  method ExpandOnce(prk: Bytes32, info: seq<byte>) returns (okm: Bytes32)
    ensures okm == Expand(prk, info)
  {
    var buf := new byte[128](_ => 0);
    var len := if |info| < 127 then |info| else 127;
    Copy(buf, 0, info[..len]);
    buf[len] := 1;
    assert buf[..len + 1] == info[..len] + [1];
    okm := Sha256.ComputeHmac(prk, buf[..len + 1]);
  }

  method DeriveKey(chainHash: Bytes32, sender: u32, receiver: u32) returns (key: Bytes32)
    ensures key == Key(chainHash, sender, receiver)
    ensures key == Sha256.Hmac(Sha256.Hmac(Zeros(32), chainHash),
                               Ascii("AXIOM-EIPC-v1") + LittleEndian(sender, 4) + LittleEndian(receiver, 4) + [1])
  {
    var prk := Sha256.ComputeHmac(Zeros(32), chainHash);
    var info := new byte[21](_ => 0);
    Copy(info, 0, Ascii(LABEL));
    Copy(info, 13, LittleEndian(sender, 4));
    Copy(info, 17, LittleEndian(receiver, 4));
    assert info[..] == Info(sender, receiver);
    key := ExpandOnce(prk, info[..]);
    assert Info(sender, receiver)[..21] == Info(sender, receiver);
  }
}
