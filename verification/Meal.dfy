/**
 MEAL, the hash-chained audit log of kernel/src/meal.rs.

 The hash and the MAC are the concrete functions of module Sha256. Nothing is assumed about
 them: every statement about tampering says that the change is caught or that two different
 strings the logs in question hash have the same SHA-256 digest.
 */
module Meal {
  import opened Bytes
  import Sha256

  datatype AuditEvent =
    | LogInitialised | CapabilityDerived | CapabilityExpired | ProcessCreated | ProcessExited
    | EipcSend | EipcReceive | SyscallDispatched | ScbaFenceFired | DriverLoaded | DriverFaultMmio
    | DriverFaultSyscall | DriverStopped | LatticeReconfigured | MemoryZeroed | BootComplete

  function Code(e: AuditEvent): (c: nat)
    ensures c < 0x1_0000
  {
    match e
    case LogInitialised => 0x0000
    case CapabilityDerived => 0x0001
    case CapabilityExpired => 0x0002
    case ProcessCreated => 0x0100
    case ProcessExited => 0x0101
    case EipcSend => 0x0200
    case EipcReceive => 0x0201
    case SyscallDispatched => 0x0300
    case ScbaFenceFired => 0x0500
    case DriverLoaded => 0x0400
    case DriverFaultMmio => 0x0401
    case DriverFaultSyscall => 0x0402
    case DriverStopped => 0x0404
    case LatticeReconfigured => 0x0600
    case MemoryZeroed => 0x0700
    case BootComplete => 0xFF00
  }

  datatype AuditEntry = AuditEntry(
    sequence: u64, timestamp: u64, event: AuditEvent, actor: u32, valueA: u64, valueB: u64,
    prevHash: Bytes32, mac: Bytes32)

  /** Byte `i` of the serialisation: the fields at their offsets, zero in the two gaps. */
  function AuthByte(e: AuditEntry, i: nat): byte
    requires i < 80
  {
    if i < 8 then LittleEndian(e.sequence, 8)[i]
    else if i < 16 then LittleEndian(e.timestamp, 8)[i - 8]
    else if i < 18 then LittleEndian(Code(e.event), 2)[i - 16]
    else if i < 24 then 0
    else if i < 28 then LittleEndian(e.actor, 4)[i - 24]
    else if i < 32 then 0
    else if i < 40 then LittleEndian(e.valueA, 8)[i - 32]
    else if i < 48 then LittleEndian(e.valueB, 8)[i - 40]
    else e.prevHash[i - 48]
  }

  /** The 80 bytes the MAC and the hash cover: everything but the MAC. */
  function AuthBytes(e: AuditEntry): (b: seq<byte>)
    ensures |b| == 80
  {
    seq(80, i requires 0 <= i < 80 => AuthByte(e, i))
  }

  /** The codes of the events, in the order of their declaration. */
  lemma Codes()
    ensures Code(LogInitialised) == 0x0000 && Code(CapabilityDerived) == 0x0001 && Code(CapabilityExpired) == 0x0002
    ensures Code(ProcessCreated) == 0x0100 && Code(ProcessExited) == 0x0101
    ensures Code(EipcSend) == 0x0200 && Code(EipcReceive) == 0x0201 && Code(SyscallDispatched) == 0x0300
    ensures Code(ScbaFenceFired) == 0x0500 && Code(DriverLoaded) == 0x0400 && Code(DriverFaultMmio) == 0x0401
    ensures Code(DriverFaultSyscall) == 0x0402 && Code(DriverStopped) == 0x0404
    ensures Code(LatticeReconfigured) == 0x0600 && Code(MemoryZeroed) == 0x0700 && Code(BootComplete) == 0xFF00
  {
  }

  /** Every field at its place, and zero in the two gaps. */
  lemma AuthBytesParts(e: AuditEntry)
    ensures var b := AuthBytes(e);
            && b[0..8] == LittleEndian(e.sequence, 8)
            && b[8..16] == LittleEndian(e.timestamp, 8)
            && b[16..18] == LittleEndian(Code(e.event), 2) && b[18..24] == Zeros(6)
            && b[24..28] == LittleEndian(e.actor, 4) && b[28..32] == Zeros(4)
            && b[32..40] == LittleEndian(e.valueA, 8)
            && b[40..48] == LittleEndian(e.valueB, 8)
            && b[48..80] == e.prevHash
  {
  }

  /** The bytes determine every covered field. */
  lemma AuthBytesInjective(a: AuditEntry, b: AuditEntry)
    requires AuthBytes(a) == AuthBytes(b)
    ensures a.(mac := b.mac) == b
  {
    AuthBytesParts(a);
    AuthBytesParts(b);
    Widths();
    LittleEndianInjective(a.sequence, b.sequence, 8);
    LittleEndianInjective(a.timestamp, b.timestamp, 8);
    LittleEndianInjective(Code(a.event), Code(b.event), 2);
    LittleEndianInjective(a.actor, b.actor, 4);
    LittleEndianInjective(a.valueA, b.valueA, 8);
    LittleEndianInjective(a.valueB, b.valueB, 8);
  }

  lemma AuthBytesIgnoresMac(e: AuditEntry, mac: Bytes32)
    ensures AuthBytes(e.(mac := mac)) == AuthBytes(e)
  {
  }

  function SelfHash(e: AuditEntry): Bytes32 { Sha256.Digest(AuthBytes(e)) }

  const GENESIS: string := "AXIOM-MEAL-GENESIS-v4"

  const CAPACITY: nat := 64

  // ---------------------------------------------------------------------------------------
  // What verification checks, for any hash and any MAC
  // ---------------------------------------------------------------------------------------

  type EntryHash = AuditEntry -> Bytes32

  /** The MAC an entry should carry under a key. */
  function MacUnder(key: Bytes32): EntryHash { (e: AuditEntry) => Sha256.Hmac(key, AuthBytes(e)) }

  /** An entry with the MAC it should carry. */
  function Stamped(key: Bytes32, e: AuditEntry): AuditEntry { e.(mac := Sha256.Hmac(key, AuthBytes(e))) }

  lemma StampedAuthentic(key: Bytes32, e: AuditEntry)
    ensures MacUnder(key)(Stamped(key, e)) == Stamped(key, e).mac
  {
    AuthBytesIgnoresMac(e, Sha256.Hmac(key, AuthBytes(e)));
  }

  predicate Authentic(es: seq<AuditEntry>, mac: EntryHash)
  {
    forall i :: 0 <= i < |es| ==> mac(es[i]) == es[i].mac
  }

  predicate Linked(es: seq<AuditEntry>, hash: EntryHash)
  {
    forall i, j :: 0 <= i < |es| && i < j < |es| && j == i + 1 ==> es[j].prevHash == hash(es[i])
  }

  /** Every MAC is right, and every entry after the first carries the hash of the one before it. */
  predicate ChainOk(key: Bytes32, es: seq<AuditEntry>)
  {
    Authentic(es, MacUnder(key)) && Linked(es, SelfHash)
  }

  /** The entries present, in slot order. */
  function Present(slots: seq<Option<AuditEntry>>): (es: seq<AuditEntry>)
    ensures |es| <= |slots|
  {
    if slots == [] then []
    else Present(slots[..|slots| - 1]) + (if slots[|slots| - 1].Some? then [slots[|slots| - 1].value] else [])
  }

  function Rotated<T>(s: seq<T>, head: nat): (r: seq<T>)
    requires head <= |s|
    ensures |r| == |s|
  {
    s[head..] + s[..head]
  }

  /** The scan: once around the ring, from the write head. */
  function Scan(slots: seq<Option<AuditEntry>>, head: nat): (es: seq<AuditEntry>)
    requires head <= |slots|
  {
    Present(Rotated(slots, head))
  }

  // ---------------------------------------------------------------------------------------
  // What appending builds
  // ---------------------------------------------------------------------------------------

  /** The hash a log with this history links its next entry to. */
  function Tip(h: seq<AuditEntry>, hash: EntryHash, genesis: Bytes32): Bytes32
  {
    if h == [] then genesis else hash(h[|h| - 1])
  }

  /** Numbered from 0, authenticated, and chained from the genesis hash. */
  predicate Chained(h: seq<AuditEntry>, mac: EntryHash, hash: EntryHash, genesis: Bytes32)
  {
    && Authentic(h, mac)
    && Linked(h, hash)
    && (h != [] ==> h[0].prevHash == genesis)
    && forall i :: 0 <= i < |h| ==> h[i].sequence == i
  }

  function GenesisHash(): Bytes32 { Sha256.Digest(Ascii(GENESIS)) }

  /** A history some run of appends under this key can have. */
  predicate Genuine(key: Bytes32, h: seq<AuditEntry>)
  {
    Chained(h, MacUnder(key), SelfHash, GenesisHash())
  }

  lemma ChainedAppend(h: seq<AuditEntry>, e: AuditEntry, mac: EntryHash, hash: EntryHash, genesis: Bytes32)
    requires Chained(h, mac, hash, genesis)
    requires e.sequence == |h| && mac(e) == e.mac && e.prevHash == Tip(h, hash, genesis)
    ensures Chained(h + [e], mac, hash, genesis)
    ensures Tip(h + [e], hash, genesis) == hash(e)
  {
  }

  function Min(a: nat, b: nat): nat { if a < b then a else b }

  /** The last 64 events, or all of them. */
  function Window(h: seq<AuditEntry>): (w: seq<AuditEntry>)
    ensures |w| == Min(|h|, CAPACITY)
  {
    h[|h| - Min(|h|, CAPACITY)..]
  }

  /** The ring holds event `i` in slot `i` modulo 64, as long as it has not been overwritten. */
  predicate Records(slots: seq<Option<AuditEntry>>, h: seq<AuditEntry>)
  {
    && |slots| == CAPACITY
    && (forall i :: |h| - Min(|h|, CAPACITY) <= i < |h| ==> slots[i % CAPACITY] == Some(h[i]))
    && (forall j :: |h| <= j < CAPACITY ==> slots[j] == None)
  }

  lemma RecordsAppend(slots: seq<Option<AuditEntry>>, h: seq<AuditEntry>, e: AuditEntry)
    requires Records(slots, h)
    ensures Records(slots[|h| % CAPACITY := Some(e)], h + [e])
  {
    var h', k := h + [e], |h| % CAPACITY;
    var slots' := slots[k := Some(e)];
    forall i | |h'| - Min(|h'|, CAPACITY) <= i < |h'|
      ensures slots'[i % CAPACITY] == Some(h'[i])
    {
      if i < |h| {
        OtherSlot(i, |h|);
      }
    }
  }

  lemma OtherSlot(i: nat, n: nat)
    requires n - 64 < i < n
    ensures i % 64 != n % 64
  {
  }

  lemma NextSlot(n: nat)
    ensures (n % 64 + 1) % 64 == (n + 1) % 64
  {
  }

  // ---------------------------------------------------------------------------------------
  // Scanning the ring
  // ---------------------------------------------------------------------------------------

  /** Entry `n` is the first one that breaks the chain. */
  predicate FirstFault(key: Bytes32, es: seq<AuditEntry>, n: nat)
  {
    n < |es| && ChainOk(key, es[..n]) && !ChainOk(key, es[..n + 1])
  }

  function LastHash(es: seq<AuditEntry>, hash: EntryHash): Option<Bytes32>
  {
    if es == [] then None else Some(hash(es[|es| - 1]))
  }

  lemma RingIndex<T>(s: seq<T>, head: nat, i: nat)
    requires |s| == 64 && head < 64 && i < 64
    ensures Rotated(s, head)[i] == s[(head + i) % 64]
  {
  }

  lemma PresentStep(ring: seq<Option<AuditEntry>>, i: nat)
    requires i < |ring|
    ensures Present(ring[..i + 1]) == Present(ring[..i]) + (if ring[i].Some? then [ring[i].value] else [])
  {
    assert ring[..i + 1][..i] == ring[..i];
  }

  lemma {:induction false} PresentPrefix(ring: seq<Option<AuditEntry>>, i: nat)
    requires i <= |ring|
    ensures Present(ring[..i]) <= Present(ring)
  {
    if i < |ring| {
      PresentPrefix(ring[..|ring| - 1], i);
      assert ring[..|ring| - 1][..i] == ring[..i];
    } else {
      assert ring[..i] == ring;
    }
  }

  lemma ExtendChain(es: seq<AuditEntry>, e: AuditEntry, mac: EntryHash, hash: EntryHash)
    requires Authentic(es, mac) && Linked(es, hash)
    ensures Authentic(es + [e], mac) && Linked(es + [e], hash) <==>
              mac(e) == e.mac && (es != [] ==> e.prevHash == hash(es[|es| - 1]))
  {
    var es' := es + [e];
    assert es'[|es|] == e;
    assert es != [] ==> es'[|es| - 1] == es[|es| - 1];
    assert forall i :: 0 <= i < |es| ==> es'[i] == es[i];
  }

  lemma ChainPrefix(key: Bytes32, es: seq<AuditEntry>, n: nat)
    requires n <= |es| && ChainOk(key, es)
    ensures ChainOk(key, es[..n])
  {
  }

  lemma PresentAt(ring: seq<Option<AuditEntry>>, i: nat)
    requires i < |ring| && ring[i].Some?
    ensures var n, es := |Present(ring[..i])|, Present(ring);
            n < |es| && es[..n] == Present(ring[..i]) && es[..n + 1] == Present(ring[..i]) + [ring[i].value]
  {
    PresentStep(ring, i);
    PresentPrefix(ring, i);
    PresentPrefix(ring, i + 1);
  }

  lemma FaultFound(key: Bytes32, ring: seq<Option<AuditEntry>>, i: nat)
    requires i < |ring| && ring[i].Some? && ChainOk(key, Present(ring[..i]))
    requires !ChainOk(key, Present(ring[..i]) + [ring[i].value])
    ensures FirstFault(key, Present(ring), |Present(ring[..i])|)
    ensures !ChainOk(key, Present(ring))
  {
    PresentAt(ring, i);
    if ChainOk(key, Present(ring)) {
      ChainPrefix(key, Present(ring), |Present(ring[..i])| + 1);
    }
  }

  lemma {:induction false} PresentNone(slots: seq<Option<AuditEntry>>)
    requires forall j :: 0 <= j < |slots| ==> slots[j] == None
    ensures Present(slots) == []
  {
    if slots != [] {
      PresentNone(slots[..|slots| - 1]);
    }
  }

  lemma {:induction false} PresentAll(slots: seq<Option<AuditEntry>>, es: seq<AuditEntry>)
    requires |slots| == |es| && forall j :: 0 <= j < |slots| ==> slots[j] == Some(es[j])
    ensures Present(slots) == es
  {
    if slots != [] {
      PresentAll(slots[..|slots| - 1], es[..|es| - 1]);
    }
  }

  lemma {:induction false} PresentConcat(a: seq<Option<AuditEntry>>, b: seq<Option<AuditEntry>>)
    ensures Present(a + b) == Present(a) + Present(b)
  {
    if b == [] {
      assert a + b == a;
    } else {
      PresentConcat(a, b[..|b| - 1]);
      assert (a + b)[..|a + b| - 1] == a + b[..|b| - 1];
    }
  }

  /** From slot `o` on, `w` in order, and nothing before it. */
  predicate Holds(ring: seq<Option<AuditEntry>>, o: nat, w: seq<AuditEntry>)
  {
    && |ring| == o + |w|
    && (forall j :: 0 <= j < o ==> ring[j] == None)
    && (forall j :: 0 <= j < |w| ==> ring[o + j] == Some(w[j]))
  }

  lemma PresentHolds(ring: seq<Option<AuditEntry>>, o: nat, w: seq<AuditEntry>)
    requires Holds(ring, o, w)
    ensures Present(ring) == w
  {
    PresentNone(ring[..o]);
    PresentAll(ring[o..], w);
    PresentConcat(ring[..o], ring[o..]);
    assert ring == ring[..o] + ring[o..];
  }

  lemma RingHolds(slots: seq<Option<AuditEntry>>, h: seq<AuditEntry>)
    requires Records(slots, h)
    ensures Holds(Rotated(slots, |h| % CAPACITY), CAPACITY - |Window(h)|, Window(h))
  {
    var n, w := |h|, Window(h);
    var ring, o := Rotated(slots, n % CAPACITY), CAPACITY - |w|;
    forall j | 0 <= j < o
      ensures ring[j] == None
    {
      RingIndex(slots, n % CAPACITY, j);
      assert n % 64 == n;
    }
    forall j | 0 <= j < |w|
      ensures ring[o + j] == Some(w[j])
    {
      RingIndex(slots, n % CAPACITY, o + j);
      WrappedSlot(n, |w|, j);
      assert slots[(n - |w| + j) % CAPACITY] == Some(h[n - |w| + j]);
    }
  }

  lemma WrappedSlot(n: nat, w: nat, j: nat)
    requires w <= n && w <= 64 && (n < 64 ==> w == n) && j < w
    ensures (n % 64 + (64 - w + j)) % 64 == (n - w + j) % 64
  {
  }

  /** However often the ring has wrapped, the scan is the last 64 events in order. */
  lemma ScanIsWindow(slots: seq<Option<AuditEntry>>, h: seq<AuditEntry>)
    requires Records(slots, h)
    ensures Scan(slots, |h| % CAPACITY) == Window(h)
  {
    RingHolds(slots, h);
    PresentHolds(Rotated(slots, |h| % CAPACITY), CAPACITY - |Window(h)|, Window(h));
  }

  /** Any run of consecutive events of a genuine history passes. */
  lemma RunsPass(key: Bytes32, h: seq<AuditEntry>, k: nat, n: nat)
    requires Genuine(key, h) && k + n <= |h|
    ensures ChainOk(key, h[k..k + n])
  {
  }

  lemma AppendedPasses(key: Bytes32, slots: seq<Option<AuditEntry>>, h: seq<AuditEntry>)
    requires Records(slots, h) && Genuine(key, h)
    ensures Scan(slots, |h| % CAPACITY) == Window(h) && ChainOk(key, Window(h))
  {
    ScanIsWindow(slots, h);
    RunsPass(key, h, |h| - |Window(h)|, |Window(h)|);
  }

  // ---------------------------------------------------------------------------------------
  // The log
  // ---------------------------------------------------------------------------------------

  class MealLog {
    const slots: array<Option<AuditEntry>>
    var writeHead: nat
    var total: nat
    var chainTip: Bytes32
    const auditKey: Bytes32
    /** Every event ever appended. */
    ghost var history: seq<AuditEntry>

    ghost predicate Shape()
      reads this
    {
      slots.Length == CAPACITY && writeHead < CAPACITY
    }

    ghost predicate Valid()
      reads this, slots
    {
      && Shape()
      && total == |history| < TWO_64
      && writeHead == |history| % CAPACITY
      && chainTip == Tip(history, SelfHash, GenesisHash())
      && Genuine(auditKey, history)
      && Records(slots[..], history)
    }

    constructor (key: Bytes32)
      ensures Valid() && history == [] && auditKey == key && fresh(slots)
      ensures chainTip == Sha256.Digest(Ascii("AXIOM-MEAL-GENESIS-v4"))
    {
      slots := new Option<AuditEntry>[64](_ => None);
      writeHead, total, auditKey, history := 0, 0, key, [];
      var genesis := Sha256.Hash(Ascii(GENESIS));
      chainTip := genesis;
    }

    method Append(ev: AuditEvent, actor: u32, a: u64, b: u64, ticks: u64) returns (seqNo: u64)
      requires Valid() && total + 1 < TWO_64
      modifies this, slots
      ensures Valid() && seqNo == old(total)
      ensures var e := AuditEntry(seqNo, ticks, ev, actor, a, b, old(chainTip), Zeros(32));
              history == old(history) + [e.(mac := Sha256.Hmac(auditKey, AuthBytes(e)))]
      ensures chainTip == Sha256.Digest(AuthBytes(history[|history| - 1]))
    {
      seqNo := total;
      var e := AuditEntry(seqNo, ticks, ev, actor, a, b, chainTip, Zeros(32));
      var mac := Sha256.ComputeHmac(auditKey, AuthBytes(e));
      StampedAuthentic(auditKey, e);
      e := e.(mac := mac);
      chainTip := Sha256.Hash(AuthBytes(e));
      Push(e);
    }

    /** Put a prepared entry into the ring and move the head on. */
    method Push(e: AuditEntry)
      requires Shape() && total == |history| && total + 1 < TWO_64 && writeHead == |history| % CAPACITY
      requires Genuine(auditKey, history) && Records(slots[..], history)
      requires e.sequence == total && MacUnder(auditKey)(e) == e.mac
      requires e.prevHash == Tip(history, SelfHash, GenesisHash()) && chainTip == SelfHash(e)
      modifies this`writeHead, this`total, this`history, slots
      ensures Valid() && history == old(history) + [e]
    {
      ChainedAppend(history, e, MacUnder(auditKey), SelfHash, GenesisHash());
      RecordsAppend(slots[..], history, e);
      NextSlot(|history|);
      slots[writeHead] := Some(e);
      assert slots[..] == old(slots[..])[writeHead := Some(e)];
      writeHead := (writeHead + 1) % CAPACITY;
      total := total + 1;
      history := history + [e];
    }

    method VerifyEntry(e: AuditEntry) returns (ok: bool)
      ensures ok <==> e.mac == Sha256.Hmac(auditKey, AuthBytes(e))
    {
      var expected := Sha256.ComputeHmac(auditKey, AuthBytes(e));
      ok := ConstantTimeEqual(expected, e.mac);
    }

    /**
     Check every MAC and every link of the entries present. The verdict is `ChainOk` of the scan,
     and on failure `n` is the position of the first entry that breaks it. A log that was only
     appended to always passes, and the scan is then its last events in order.
     */
    method VerifyChain() returns (n: nat, ok: bool)
      requires Shape()
      ensures ok <==> ChainOk(auditKey, Scan(slots[..], writeHead))
      ensures ok ==> n == |Scan(slots[..], writeHead)|
      ensures !ok ==> FirstFault(auditKey, Scan(slots[..], writeHead), n)
      ensures Valid() ==> ok && n == Min(total, CAPACITY) && Scan(slots[..], writeHead) == Window(history)
    {
      n, ok := ScanRing();
      if Valid() {
        AppendedPasses(auditKey, slots[..], history);
      }
    }

    method ScanRing() returns (n: nat, ok: bool)
      requires Shape()
      ensures ok <==> ChainOk(auditKey, Scan(slots[..], writeHead))
      ensures ok ==> n == |Scan(slots[..], writeHead)|
      ensures !ok ==> FirstFault(auditKey, Scan(slots[..], writeHead), n)
    {
      ghost var ring := Rotated(slots[..], writeHead);
      ghost var seen: seq<AuditEntry> := [];
      var prev: Option<Bytes32> := None;
      n := 0;
      for i := 0 to CAPACITY
        invariant seen == Present(ring[..i]) && n == |seen|
        invariant ChainOk(auditKey, seen) && prev == LastHash(seen, SelfHash)
      {
        var slot := SlotAfterHead(i);
        PresentStep(ring, i);
        if slot.Some? {
          ok, prev := VerifyNext(slot.value, prev, seen);
          if !ok {
            FaultFound(auditKey, ring, i);
            return;
          }
          seen, n := seen + [slot.value], n + 1;
        }
      }
      assert ring[..64] == ring;
      ok := true;
    }

    method SlotAfterHead(i: nat) returns (slot: Option<AuditEntry>)
      requires Shape() && i < CAPACITY
      ensures slot == Rotated(slots[..], writeHead)[i]
    {
      RingIndex(slots[..], writeHead, i);
      slot := slots[(writeHead + i) % CAPACITY];
    }

    /** Check one more entry against its MAC and the hash of the one before, and hash it for the next. */
    method VerifyNext(e: AuditEntry, prev: Option<Bytes32>, ghost seen: seq<AuditEntry>)
      returns (ok: bool, next: Option<Bytes32>)
      requires ChainOk(auditKey, seen) && prev == LastHash(seen, SelfHash)
      ensures ok <==> ChainOk(auditKey, seen + [e])
      ensures ok ==> next == LastHash(seen + [e], SelfHash)
    {
      ExtendChain(seen, e, MacUnder(auditKey), SelfHash);
      next := None;
      ok := VerifyEntry(e);
      if ok && prev.Some? {
        ok := e.prevHash == prev.value;
      }
      if ok {
        var h := Sha256.Hash(AuthBytes(e));
        next := Some(h);
      }
    }
  }

  // ---------------------------------------------------------------------------------------
  // What tampering can do
  // ---------------------------------------------------------------------------------------

  /** The byte strings a log with this history hashes: the genesis string and its entries. */
  predicate Hashed(h: seq<AuditEntry>, x: seq<byte>)
  {
    x == Ascii(GENESIS) || exists i :: 0 <= i < |h| && x == AuthBytes(h[i])
  }

  /** Two different strings this log hashes have the same digest. */
  predicate CollisionIn(h: seq<AuditEntry>, x: seq<byte>, y: seq<byte>)
  {
    Hashed(h, x) && Hashed(h, y) && Sha256.HashCollision(x, y)
  }

  /** Entries of a genuine history that differ in number differ in their bytes. */
  lemma DistinctEntries(key: Bytes32, h: seq<AuditEntry>, i: nat, j: nat)
    requires Genuine(key, h) && i < |h| && j < |h| && i != j
    ensures AuthBytes(h[i]) != AuthBytes(h[j])
  {
    if AuthBytes(h[i]) == AuthBytes(h[j]) {
      AuthBytesInjective(h[i], h[j]);
    }
  }

  /** If entry `m` of the history is linked to entry `k`, then `m` follows `k`, or there is a collision. */
  lemma LinkStep(key: Bytes32, h: seq<AuditEntry>, k: nat, m: nat) returns (x: seq<byte>, y: seq<byte>)
    requires Genuine(key, h) && k < |h| && m < |h|
    requires h[m].prevHash == SelfHash(h[k])
    ensures m == k + 1 || CollisionIn(h, x, y)
  {
    y := AuthBytes(h[k]);
    if m == 0 {
      x := Ascii(GENESIS);
      assert |x| == 21;
    } else {
      x := AuthBytes(h[m - 1]);
      assert h[m].prevHash == SelfHash(h[m - 1]);
      if m - 1 != k {
        DistinctEntries(key, h, m - 1, k);
      }
    }
  }

  /** `v` is a run of consecutive events of `h`, from event `k` on. */
  predicate RunAt(h: seq<AuditEntry>, v: seq<AuditEntry>, k: nat)
  {
    k + |v| <= |h| && v == h[k..k + |v|]
  }

  /** Entries of `h` linked one to the next are a run of `h`, or some entry is linked to one it does not follow. */
  lemma {:induction false} RunOrMislink(h: seq<AuditEntry>, v: seq<AuditEntry>, hash: EntryHash)
    returns (k: nat, p: nat, m: nat)
    requires v != [] && Linked(v, hash)
    requires forall i :: 0 <= i < |v| ==> v[i] in h
    ensures RunAt(h, v, k) || (p < |h| && m < |h| && m != p + 1 && h[m].prevHash == hash(h[p]))
    decreases |v|
  {
    var n := |v| - 1;
    assert v[n] in h;
    m :| 0 <= m < |h| && h[m] == v[n];
    k, p := m, 0;
    if n > 0 {
      var m';
      k, p, m' := RunOrMislink(h, v[..n], hash);
      if RunAt(h, v[..n], k) {
        p := k + n - 1;
        assert v[n - 1] == v[..n][n - 1] == h[p];
        assert v == v[..n] + [v[n]];
      } else {
        m := m';
      }
    }
  }

  /**
   Whatever is done with the entries of a genuine log (dropped, duplicated, reordered), if the
   result still passes verification it is a run of consecutive events of that log, or two strings
   the log hashes collide.
   */
  lemma OnlyRunsPass(key: Bytes32, h: seq<AuditEntry>, v: seq<AuditEntry>)
    returns (k: nat, x: seq<byte>, y: seq<byte>)
    requires Genuine(key, h) && v != [] && ChainOk(key, v)
    requires forall i :: 0 <= i < |v| ==> v[i] in h
    ensures RunAt(h, v, k) || CollisionIn(h, x, y)
  {
    var p, m;
    k, p, m := RunOrMislink(h, v, SelfHash);
    x, y := [], [];
    if !RunAt(h, v, k) {
      x, y := LinkStep(key, h, p, m);
    }
  }

  /**
   So verification decides exactly whether what is left of a log is a run of consecutive events,
   unless two strings the log hashes collide. In particular events missing at either end are not
   noticed, because neither the first link nor the last hash is compared with anything.
   */
  lemma PassesExactly(key: Bytes32, h: seq<AuditEntry>, v: seq<AuditEntry>) returns (x: seq<byte>, y: seq<byte>)
    requires Genuine(key, h) && v != [] && forall i :: 0 <= i < |v| ==> v[i] in h
    ensures CollisionIn(h, x, y) || (ChainOk(key, v) <==> exists k: nat :: RunAt(h, v, k))
  {
    x, y := [], [];
    if ChainOk(key, v) {
      var k;
      k, x, y := OnlyRunsPass(key, h, v);
    } else if k: nat :| RunAt(h, v, k) {
      RunsPass(key, h, k, |v|);
    }
  }

  lemma PresentErased(ring: seq<Option<AuditEntry>>, o: nat, w: seq<AuditEntry>, i: nat, j: nat)
    requires Holds(ring, o, w) && i <= j <= |w|
    ensures Present(ring[..o + i] + seq(j - i, _ => None) + ring[o + j..]) == w[..i] + w[j..]
  {
    var gap := seq(j - i, _ => None);
    PresentHolds(ring[..o + i], o, w[..i]);
    PresentNone(gap);
    PresentHolds(ring[o + j..], 0, w[j..]);
    PresentConcat(ring[..o + i], gap);
    PresentConcat(ring[..o + i] + gap, ring[o + j..]);
  }

  lemma PresentExchanged(ring: seq<Option<AuditEntry>>, o: nat, w: seq<AuditEntry>, i: nat, j: nat)
    requires Holds(ring, o, w) && i < j < |w|
    ensures Present(ring[o + i := ring[o + j]][o + j := ring[o + i]]) == w[i := w[j]][j := w[i]]
  {
    PresentHolds(ring[o + i := ring[o + j]][o + j := ring[o + i]], o, w[i := w[j]][j := w[i]]);
  }

  lemma RunMember(h: seq<AuditEntry>, w: seq<AuditEntry>, o: nat, t: nat)
    requires RunAt(h, w, o) && t < |w|
    ensures w[t] == h[o + t] && w[t] in h
  {
  }

  /** Taking out a run of events from the middle of a run is caught. */
  lemma GapCaught(key: Bytes32, h: seq<AuditEntry>, w: seq<AuditEntry>, o: nat, i: nat, j: nat)
    returns (x: seq<byte>, y: seq<byte>)
    requires Genuine(key, h) && RunAt(h, w, o) && 0 < i < j < |w|
    ensures !ChainOk(key, w[..i] + w[j..]) || CollisionIn(h, x, y)
  {
    var v := w[..i] + w[j..];
    RunMember(h, w, o, 0);
    RunMember(h, w, o, j);
    assert v[0].sequence == o && v[i].sequence == o + j;
    forall t | 0 <= t < |v|
      ensures v[t] in h
    {
      RunMember(h, w, o, if t < i then t else t - i + j);
    }
    x, y := [], [];
    if ChainOk(key, v) {
      var k;
      k, x, y := OnlyRunsPass(key, h, v);
    }
  }

  /** Exchanging two events of a run is caught. */
  lemma SwapCaught(key: Bytes32, h: seq<AuditEntry>, w: seq<AuditEntry>, o: nat, i: nat, j: nat)
    returns (x: seq<byte>, y: seq<byte>)
    requires Genuine(key, h) && RunAt(h, w, o) && i < j < |w|
    ensures !ChainOk(key, w[i := w[j]][j := w[i]]) || CollisionIn(h, x, y)
  {
    var v := w[i := w[j]][j := w[i]];
    RunMember(h, w, o, i);
    RunMember(h, w, o, j);
    assert v[i].sequence == o + j && v[j].sequence == o + i;
    forall t | 0 <= t < |v|
      ensures v[t] in h
    {
      RunMember(h, w, o, if t == i then j else if t == j then i else t);
    }
    x, y := [], [];
    if ChainOk(key, v) {
      var k;
      k, x, y := OnlyRunsPass(key, h, v);
    }
  }

  lemma ScanErased(slots: seq<Option<AuditEntry>>, h: seq<AuditEntry>,
                   slots': seq<Option<AuditEntry>>, i: nat, j: nat)
    requires Records(slots, h) && |slots'| == CAPACITY && i < j <= |Window(h)|
    requires var ring, o := Rotated(slots, |h| % CAPACITY), CAPACITY - |Window(h)|;
             Rotated(slots', |h| % CAPACITY) == ring[..o + i] + seq(j - i, _ => None) + ring[o + j..]
    ensures Scan(slots', |h| % CAPACITY) == Window(h)[..i] + Window(h)[j..]
  {
    RingHolds(slots, h);
    PresentErased(Rotated(slots, |h| % CAPACITY), CAPACITY - |Window(h)|, Window(h), i, j);
  }

  lemma ScanExchanged(slots: seq<Option<AuditEntry>>, h: seq<AuditEntry>,
                      slots': seq<Option<AuditEntry>>, i: nat, j: nat)
    requires Records(slots, h) && |slots'| == CAPACITY && i < j < |Window(h)|
    requires var ring, o := Rotated(slots, |h| % CAPACITY), CAPACITY - |Window(h)|;
             Rotated(slots', |h| % CAPACITY) == ring[o + i := ring[o + j]][o + j := ring[o + i]]
    ensures Scan(slots', |h| % CAPACITY) == Window(h)[i := Window(h)[j]][j := Window(h)[i]]
  {
    RingHolds(slots, h);
    PresentExchanged(Rotated(slots, |h| % CAPACITY), CAPACITY - |Window(h)|, Window(h), i, j);
  }

  /**
   Clearing a run of the occupied slots of a log that was only appended to passes verification
   exactly when the run lies at one of the ends, unless two strings the log hashes collide.
   */
  lemma ErasureExactly(key: Bytes32, slots: seq<Option<AuditEntry>>, h: seq<AuditEntry>,
                       slots': seq<Option<AuditEntry>>, i: nat, j: nat)
    returns (x: seq<byte>, y: seq<byte>)
    requires Genuine(key, h) && Records(slots, h) && |slots'| == CAPACITY && i < j <= |Window(h)|
    requires var ring, o := Rotated(slots, |h| % CAPACITY), CAPACITY - |Window(h)|;
             Rotated(slots', |h| % CAPACITY) == ring[..o + i] + seq(j - i, _ => None) + ring[o + j..]
    ensures CollisionIn(h, x, y) || (ChainOk(key, Scan(slots', |h| % CAPACITY)) <==> i == 0 || j == |Window(h)|)
  {
    var w, o := Window(h), |h| - |Window(h)|;
    assert w == h[o..o + |w|];
    x, y := RunErased(key, h, w, o, i, j);
    ScanErased(slots, h, slots', i, j);
  }

  lemma RunErased(key: Bytes32, h: seq<AuditEntry>, w: seq<AuditEntry>, o: nat, i: nat, j: nat)
    returns (x: seq<byte>, y: seq<byte>)
    requires Genuine(key, h) && RunAt(h, w, o) && i < j <= |w|
    ensures CollisionIn(h, x, y) || (ChainOk(key, w[..i] + w[j..]) <==> i == 0 || j == |w|)
  {
    x, y := [], [];
    if i == 0 {
      RunsPass(key, h, o + j, |w| - j);
      assert w[..i] + w[j..] == h[o + j..o + j + (|w| - j)];
    } else if j == |w| {
      RunsPass(key, h, o, i);
      assert w[..i] + w[j..] == h[o..o + i];
    } else {
      x, y := GapCaught(key, h, w, o, i, j);
    }
  }

  /** Exchanging any two occupied slots makes verification fail, or two strings the log hashes collide. */
  lemma ExchangeCaught(key: Bytes32, slots: seq<Option<AuditEntry>>, h: seq<AuditEntry>,
                       slots': seq<Option<AuditEntry>>, i: nat, j: nat)
    returns (x: seq<byte>, y: seq<byte>)
    requires Genuine(key, h) && Records(slots, h) && |slots'| == CAPACITY && i < j < |Window(h)|
    requires var ring, o := Rotated(slots, |h| % CAPACITY), CAPACITY - |Window(h)|;
             Rotated(slots', |h| % CAPACITY) == ring[o + i := ring[o + j]][o + j := ring[o + i]]
    ensures !ChainOk(key, Scan(slots', |h| % CAPACITY)) || CollisionIn(h, x, y)
  {
    var w, o := Window(h), |h| - |Window(h)|;
    assert w == h[o..o + |w|];
    x, y := SwapCaught(key, h, w, o, i, j);
    ScanExchanged(slots, h, slots', i, j);
  }

  /** Back from equal last hashes: the covered fields agree throughout, or at `p` they differ under one hash. */
  lemma {:induction false} AgreeOrSplit(v: seq<AuditEntry>, w: seq<AuditEntry>, hash: EntryHash) returns (p: nat)
    requires Linked(v, hash) && Linked(w, hash) && |v| == |w| > 0
    requires hash(v[|v| - 1]) == hash(w[|w| - 1])
    ensures p < |v| && hash(v[p]) == hash(w[p])
    ensures (forall i :: 0 <= i < |v| ==> v[i].(mac := w[i].mac) == w[i]) || v[p].(mac := w[p].mac) != w[p]
    decreases |v|
  {
    p := |v| - 1;
    if v[p].(mac := w[p].mac) == w[p] && p > 0 {
      assert v[p].prevHash == hash(v[p - 1]) && w[p].prevHash == hash(w[p - 1]);
      var n := p;
      p := AgreeOrSplit(v[..n], w[..n], hash);
      assert v[..n][p] == v[p] && w[..n][p] == w[p];
      if v[p].(mac := w[p].mac) == w[p] {
        forall i | 0 <= i < |v|
          ensures v[i].(mac := w[i].mac) == w[i]
        {
          if i < n {
            assert v[..n][i] == v[i] && w[..n][i] == w[i];
          }
        }
      }
    }
  }

  lemma MacDetermined(key: Bytes32, a: AuditEntry, b: AuditEntry)
    requires MacUnder(key)(a) == a.mac && MacUnder(key)(b) == b.mac && a.(mac := b.mac) == b
    ensures a == b
  {
    AuthBytesIgnoresMac(a, b.mac);
  }

  /**
   Two scans that pass under one key, with the same number of entries and the same hash of the
   last one, are the same entries field by field and MAC by MAC, or the serialisations of their
   entries at one place collide.
   */
  lemma TipBinds(key: Bytes32, v: seq<AuditEntry>, w: seq<AuditEntry>) returns (p: nat)
    requires ChainOk(key, v) && ChainOk(key, w) && |v| == |w| > 0
    requires SelfHash(v[|v| - 1]) == SelfHash(w[|w| - 1])
    ensures v == w || (p < |v| && Sha256.HashCollision(AuthBytes(v[p]), AuthBytes(w[p])))
  {
    p := AgreeOrSplit(v, w, SelfHash);
    if AuthBytes(v[p]) == AuthBytes(w[p]) {
      AuthBytesInjective(v[p], w[p]);
      forall i | 0 <= i < |v|
        ensures v[i] == w[i]
      {
        MacDetermined(key, v[i], w[i]);
      }
    }
  }
}
