/**
 Encrypted inter-process communication, kernel/src/eipc.rs: the four-slot ring of ciphertexts
 and, on top of it, the sending and receiving steps with the AEAD of module Aead.
 */
module Eipc {
  import opened Bytes
  import Aead
  import ChaCha20
  import Poly1305

  const CAP: nat := 4

  type Nonce = n: seq<byte> | |n| == 12 witness Zeros(12)
  type Buffer = b: seq<byte> | |b| == 64 witness Zeros(64)
  type Len = n: nat | n <= 64
  type Text = t: seq<byte> | |t| <= 64
  type Tag = t: seq<byte> | |t| == 16 witness Zeros(16)

  /** A message as the kernel stores it: ciphertext only. */
  datatype EipcMessage = EipcMessage(senderId: u32, seqNo: u32, nonce: Nonce, ct: Buffer, ctLen: Len, tag: Tag)

  // ---------------------------------------------------------------------------------------
  // The ring
  // ---------------------------------------------------------------------------------------

  /** Slot `i` places after `head`. */
  function Slot(head: nat, i: nat): (r: nat)
    ensures r < CAP
  {
    (head + i) % CAP
  }

  /** The ring holds the queue from `head` on, and nothing else. */
  predicate Holds(slots: seq<Option<EipcMessage>>, head: nat, queue: seq<EipcMessage>)
  {
    && |slots| == CAP && head < CAP && |queue| <= CAP
    && (forall i :: 0 <= i < |queue| ==> slots[Slot(head, i)] == Some(queue[i]))
    && (forall i :: |queue| <= i < CAP ==> slots[Slot(head, i)] == None)
  }

  lemma Pushed(slots: seq<Option<EipcMessage>>, head: nat, queue: seq<EipcMessage>, m: EipcMessage)
    requires Holds(slots, head, queue) && |queue| < CAP
    ensures Holds(slots[Slot(head, |queue|) := Some(m)], head, queue + [m])
    ensures (Slot(head, |queue|) + 1) % CAP == Slot(head, |queue| + 1)
  {
  }

  lemma Popped(slots: seq<Option<EipcMessage>>, head: nat, queue: seq<EipcMessage>)
    requires Holds(slots, head, queue) && queue != []
    ensures Holds(slots[head := None], (head + 1) % CAP, queue[1..])
    ensures slots[head] == Some(queue[0]) && Slot((head + 1) % CAP, |queue| - 1) == Slot(head, |queue|)
  {
    assert Slot(head, 0) == head;
    SlotShift(head, 0); SlotShift(head, 1); SlotShift(head, 2); SlotShift(head, 3);
  }

  lemma SlotShift(head: nat, i: nat)
    ensures Slot((head + 1) % CAP, i) == Slot(head, i + 1)
  {
  }

  class EipcChannel {
    const slots: array<Option<EipcMessage>>
    var head: nat
    var tail: nat
    var count: nat
    /** The messages in flight, oldest first. */
    ghost var queue: seq<EipcMessage>

    ghost predicate Valid()
      reads this, slots
    {
      slots.Length == CAP && count == |queue| && Holds(slots[..], head, queue) && tail == Slot(head, count)
    }

    constructor ()
      ensures Valid() && queue == [] && fresh(slots)
    {
      slots := new Option<EipcMessage>[4](_ => None);
      head, tail, count, queue := 0, 0, 0, [];
    }

    method Enqueue(msg: EipcMessage) returns (ok: bool)
      requires Valid()
      modifies this, slots
      ensures Valid()
      ensures ok <==> |old(queue)| < CAP
      ensures queue == if ok then old(queue) + [msg] else old(queue)
    {
      if count >= CAP {
        return false;
      }
      Pushed(slots[..], head, queue, msg);
      slots[tail] := Some(msg);
      assert slots[..] == old(slots[..])[tail := Some(msg)];
      tail := (tail + 1) % CAP;
      count := count + 1;
      queue := queue + [msg];
      ok := true;
    }

    method Dequeue() returns (msg: Option<EipcMessage>)
      requires Valid()
      modifies this, slots
      ensures Valid()
      ensures old(queue) == [] ==> msg == None && queue == []
      ensures old(queue) != [] ==> msg == Some(old(queue)[0]) && queue == old(queue)[1..]
    {
      if count == 0 {
        return None;
      }
      Popped(slots[..], head, queue);
      msg := slots[head];
      slots[head] := None;
      assert slots[..] == old(slots[..])[head := None];
      head := (head + 1) % CAP;
      count := count - 1;
      queue := queue[1..];
    }
  }

  // ---------------------------------------------------------------------------------------
  // Sealing and opening
  // ---------------------------------------------------------------------------------------

  const AAD: string := "AXIOM-EIPC-v1"
  const SENDER: u32 := 1

  /** Four zero bytes and the sequence number as eight. */
  function MakeNonce(seqNo: u32): Nonce { Zeros(4) + LittleEndian(seqNo, 8) }

  /** The sequence number as twelve bytes: four zeroes, then the number, least significant byte first. */
  lemma NonceIs(seqNo: u32)
    ensures MakeNonce(seqNo)[..4] == [0, 0, 0, 0] && FromLittleEndian(MakeNonce(seqNo)[4..]) == seqNo
  {
    Widths();
    LittleEndianValue(seqNo, 8);
    assert MakeNonce(seqNo)[4..] == LittleEndian(seqNo, 8);
  }

  lemma NonceInjective(a: u32, b: u32)
    ensures MakeNonce(a) == MakeNonce(b) <==> a == b
  {
    if MakeNonce(a) == MakeNonce(b) {
      assert MakeNonce(a)[4..] == LittleEndian(a, 8) && MakeNonce(b)[4..] == LittleEndian(b, 8);
      Widths();
      LittleEndianInjective(a, b, 8);
    }
  }

  /** The message a sender hands to the kernel. */
  function Sealed(key: Bytes32, plain: Text, seqNo: u32): EipcMessage
  {
    var nonce := MakeNonce(seqNo);
    var ct := Aead.Crypt(key, nonce, plain);
    EipcMessage(SENDER, seqNo, nonce, ct + Zeros(64 - |ct|), |ct|, Aead.TagOf(key, nonce, Ascii(AAD), ct))
  }

  /** What the receiver makes of a message. */
  function Opened(key: Bytes32, m: EipcMessage): Option<Text>
  {
    var ct := m.ct[..m.ctLen];
    if m.tag == Aead.TagOf(key, m.nonce, Ascii(AAD), ct) then Some(Aead.Crypt(key, m.nonce, ct)) else None
  }

  /** Every sealed message authenticates, and opens to its plaintext. */
  lemma SealedOpens(key: Bytes32, plain: Text, seqNo: u32)
    ensures Opened(key, Sealed(key, plain, seqNo)) == Some(plain)
  {
    var nonce := MakeNonce(seqNo);
    var ct := Aead.Crypt(key, nonce, plain);
    assert (ct + Zeros(64 - |ct|))[..|ct|] == ct;
    Aead.CryptInvolution(key, nonce, plain);
  }

  /** Under one key, no two keystream blocks of any messages with different numbers start from the same state. */
  lemma NoStateReused(key: Bytes32, a: u32, blockA: u32, b: u32, blockB: u32)
    requires a != b || blockA != blockB
    ensures ChaCha20.Apply(ChaCha20.Initial(key, blockA, MakeNonce(a)), ChaCha20.Schedule())
         != ChaCha20.Apply(ChaCha20.Initial(key, blockB, MakeNonce(b)), ChaCha20.Schedule())
  {
    NonceInjective(a, b);
    Aead.StatesFresh(key, MakeNonce(a), blockA, MakeNonce(b), blockB);
  }

  datatype Received = Nothing | Rejected(seqNo: u32) | Plain(seqNo: u32, text: Text)

  function Outcome(key: Bytes32, m: EipcMessage): Received
  {
    match Opened(key, m)
    case Some(text) => Plain(m.seqNo, text)
    case None => Rejected(m.seqNo)
  }

  method SealMessage(key: Bytes32, plain: Text, seqNo: u32) returns (msg: EipcMessage)
    ensures msg == Sealed(key, plain, seqNo)
    ensures msg.senderId == 1 && msg.seqNo == seqNo && msg.nonce == MakeNonce(seqNo) && msg.ctLen == |plain|
    ensures msg.ct[..msg.ctLen] == Aead.Crypt(key, MakeNonce(seqNo), plain)
    ensures msg.tag == Poly1305.Tag(ChaCha20.Block(key, 0, MakeNonce(seqNo))[..32],
                                    Aead.MacInput(Ascii("AXIOM-EIPC-v1"), msg.ct[..msg.ctLen]))
  {
    var nonce := MakeNonce(seqNo);
    var buf := new byte[|plain|](_ => 0);
    var tag;
    ghost var used;
    tag, used := Aead.Seal(key, nonce, Ascii(AAD), plain, buf);
    assert buf[..|plain|] == buf[..];
    msg := EipcMessage(SENDER, seqNo, nonce, buf[..] + Zeros(64 - |plain|), |plain|, tag);
    assert msg.ct[..msg.ctLen] == buf[..];
  }

  method OpenMessage(key: Bytes32, m: EipcMessage) returns (r: Received)
    ensures r == Outcome(key, m)
    ensures r.Plain? <==> m.tag == Poly1305.Tag(ChaCha20.Block(key, 0, m.nonce)[..32],
                                                Aead.MacInput(Ascii("AXIOM-EIPC-v1"), m.ct[..m.ctLen]))
    ensures r.Plain? ==> r.seqNo == m.seqNo && r.text == Aead.Crypt(key, m.nonce, m.ct[..m.ctLen])
    ensures !r.Plain? ==> r == Rejected(m.seqNo)
  {
    var buf := new byte[m.ctLen](_ => 0);
    var ok;
    ghost var used;
    ok, used := Aead.Open(key, m.nonce, Ascii(AAD), m.ct[..m.ctLen], m.tag, buf);
    if !ok {
      return Rejected(m.seqNo);
    }
    assert buf[..m.ctLen] == buf[..];
    r := Plain(m.seqNo, buf[..]);
  }

  // ---------------------------------------------------------------------------------------
  // The sending and receiving steps
  // ---------------------------------------------------------------------------------------

  type Sealer = (Text, u32) -> EipcMessage
  type Opener = EipcMessage -> Received

  function SealWith(key: Bytes32): Sealer { (text: Text, seqNo: u32) => Sealed(key, text, seqNo) }

  function OpenWith(key: Bytes32): Opener { (m: EipcMessage) => Outcome(key, m) }

  method Send(channel: EipcChannel, key: Bytes32, plain: Text, seqNo: u32) returns (ok: bool)
    requires channel.Valid()
    modifies channel, channel.slots
    ensures channel.Valid()
    ensures ok <==> |old(channel.queue)| < CAP
    ensures channel.queue == if ok then old(channel.queue) + [SealWith(key)(plain, seqNo)] else old(channel.queue)
  {
    var msg := SealMessage(key, plain, seqNo);
    ok := channel.Enqueue(msg);
  }

  method Receive(channel: EipcChannel, key: Bytes32) returns (r: Received)
    requires channel.Valid()
    modifies channel, channel.slots
    ensures channel.Valid()
    ensures r == Nothing <==> old(channel.queue) == []
    ensures old(channel.queue) == [] ==> channel.queue == []
    ensures old(channel.queue) != [] ==>
              r == OpenWith(key)(old(channel.queue)[0]) && channel.queue == old(channel.queue)[1..]
  {
    var msg := channel.Dequeue();
    if msg.None? {
      return Nothing;
    }
    r := OpenMessage(key, msg.value);
  }

  function OpenAll(open: Opener, q: seq<EipcMessage>): (r: seq<Received>)
    ensures |r| == |q|
  {
    seq(|q|, i requires 0 <= i < |q| => open(q[i]))
  }

  lemma OpenOneMore(open: Opener, q: seq<EipcMessage>, n: nat)
    requires n < |q|
    ensures OpenAll(open, q[..n + 1]) == OpenAll(open, q[..n]) + [open(q[n])]
  {
  }

  /** The receiving loop: take messages until there are none. */
  method Drain(channel: EipcChannel, key: Bytes32) returns (out: seq<Received>)
    requires channel.Valid()
    modifies channel, channel.slots
    ensures channel.Valid() && channel.queue == []
    ensures out == OpenAll(OpenWith(key), old(channel.queue))
  {
    ghost var q, n := channel.queue, 0;
    out := [];
    while true
      invariant channel.Valid() && n <= |q| && channel.queue == q[n..]
      invariant out == OpenAll(OpenWith(key), q[..n])
      decreases |q| - n
    {
      var r := Receive(channel, key);
      if r == Nothing {
        break;
      }
      OpenOneMore(OpenWith(key), q, n);
      out := out + [r];
      n := n + 1;
    }
    assert q[..n] == q;
  }

  // ---------------------------------------------------------------------------------------
  // Whole runs
  // ---------------------------------------------------------------------------------------

  datatype Op = SendOp(text: Text, seqNo: u32) | ReceiveOp

  datatype Sent = Sent(text: Text, seqNo: u32)

  /** What a run has done so far; the kernel holds only `queue`. */
  datatype Session = Session(
    queue: seq<EipcMessage>, accepted: seq<Sent>, received: seq<Received>, nonces: seq<Nonce>)

  /** A send takes a nonce whether or not there is room; a receive of nothing does nothing. */
  function After(seal: Sealer, open: Opener, s: Session, op: Op): Session
  {
    match op
    case SendOp(text, seqNo) =>
      var nonces := s.nonces + [seal(text, seqNo).nonce];
      if |s.queue| < CAP
      then Session(s.queue + [seal(text, seqNo)], s.accepted + [Sent(text, seqNo)], s.received, nonces)
      else s.(nonces := nonces)
    case ReceiveOp =>
      if s.queue == [] then s
      else s.(queue := s.queue[1..], received := s.received + [open(s.queue[0])])
  }

  function RunWith(seal: Sealer, open: Opener, ops: seq<Op>): Session
  {
    if ops == [] then Session([], [], [], [])
    else After(seal, open, RunWith(seal, open, ops[..|ops| - 1]), ops[|ops| - 1])
  }

  function Run(key: Bytes32, ops: seq<Op>): Session { RunWith(SealWith(key), OpenWith(key), ops) }

  /** Received so far: the accepted texts in order. In flight: the rest of them, sealed. */
  predicate InOrder(seal: Sealer, s: Session)
  {
    && |s.queue| <= CAP
    && |s.received| + |s.queue| == |s.accepted|
    && (forall i :: 0 <= i < |s.received| ==> s.received[i] == Plain(s.accepted[i].seqNo, s.accepted[i].text))
    && (forall i :: 0 <= i < |s.queue| ==>
          s.queue[i] == seal(s.accepted[|s.received| + i].text, s.accepted[|s.received| + i].seqNo))
  }

  ghost predicate Inverse(seal: Sealer, open: Opener)
  {
    forall text: Text, seqNo: u32 :: open(seal(text, seqNo)) == Plain(seqNo, text)
  }

  lemma SendInOrder(seal: Sealer, open: Opener, s: Session, text: Text, seqNo: u32)
    requires InOrder(seal, s)
    ensures InOrder(seal, After(seal, open, s, SendOp(text, seqNo)))
  {
  }

  lemma ReceiveInOrder(seal: Sealer, open: Opener, s: Session)
    requires Inverse(seal, open) && InOrder(seal, s)
    ensures InOrder(seal, After(seal, open, s, ReceiveOp))
  {
    if s.queue != [] {
      var next := s.accepted[|s.received|];
      assert s.queue[0] == seal(next.text, next.seqNo);
    }
  }

  lemma {:induction false} RunWithInOrder(seal: Sealer, open: Opener, ops: seq<Op>)
    requires Inverse(seal, open)
    ensures InOrder(seal, RunWith(seal, open, ops))
  {
    if ops != [] {
      RunWithInOrder(seal, open, ops[..|ops| - 1]);
      var s := RunWith(seal, open, ops[..|ops| - 1]);
      match ops[|ops| - 1]
      case SendOp(text, seqNo) => SendInOrder(seal, open, s, text, seqNo);
      case ReceiveOp => ReceiveInOrder(seal, open, s);
    }
  }

  lemma SealOpenInverse(key: Bytes32)
    ensures Inverse(SealWith(key), OpenWith(key))
  {
    forall text: Text, seqNo: u32
      ensures OpenWith(key)(SealWith(key)(text, seqNo)) == Plain(seqNo, text)
    {
      SealedOpens(key, text, seqNo);
    }
  }

  /**
   Over every interleaving of sends and receives, the receiver has a prefix of the accepted texts,
   in order, each one authenticated; what is missing is in the ring, at most four messages.
   */
  lemma RunInOrder(key: Bytes32, ops: seq<Op>)
    ensures var s := Run(key, ops);
            && |s.queue| <= CAP && |s.received| + |s.queue| == |s.accepted|
            && forall i :: 0 <= i < |s.received| ==> s.received[i] == Plain(s.accepted[i].seqNo, s.accepted[i].text)
  {
    SealOpenInverse(key);
    RunWithInOrder(SealWith(key), OpenWith(key), ops);
  }

  /** Draining after any run completes it: nothing accepted is lost, changed or out of place. */
  lemma NothingLost(key: Bytes32, ops: seq<Op>)
    ensures var s := Run(key, ops);
            var all := s.received + OpenAll(OpenWith(key), s.queue);
            && |all| == |s.accepted|
            && forall i :: 0 <= i < |all| ==> all[i] == Plain(s.accepted[i].seqNo, s.accepted[i].text)
  {
    SealOpenInverse(key);
    RunWithInOrder(SealWith(key), OpenWith(key), ops);
    DrainedInOrder(SealWith(key), OpenWith(key), Run(key, ops));
  }

  lemma DrainedInOrder(seal: Sealer, open: Opener, s: Session)
    requires Inverse(seal, open) && InOrder(seal, s)
    ensures var all := s.received + OpenAll(open, s.queue);
            forall i :: 0 <= i < |all| ==> all[i] == Plain(s.accepted[i].seqNo, s.accepted[i].text)
  {
    var all, n := s.received + OpenAll(open, s.queue), |s.received|;
    forall i | 0 <= i < |all|
      ensures all[i] == Plain(s.accepted[i].seqNo, s.accepted[i].text)
    {
      if i >= n {
        assert s.queue[i - n] == seal(s.accepted[n + (i - n)].text, s.accepted[n + (i - n)].seqNo);
      }
    }
  }

  function SeqNos(ops: seq<Op>): seq<u32>
  {
    if ops == [] then []
    else SeqNos(ops[..|ops| - 1]) + (if ops[|ops| - 1].SendOp? then [ops[|ops| - 1].seqNo] else [])
  }

  /** Every message carries the nonce of its number. */
  ghost predicate Numbered(seal: Sealer)
  {
    forall text: Text, seqNo: u32 :: seal(text, seqNo).nonce == MakeNonce(seqNo)
  }

  lemma SealNumbered(key: Bytes32)
    ensures Numbered(SealWith(key))
  {
    forall text: Text, seqNo: u32
      ensures SealWith(key)(text, seqNo).nonce == MakeNonce(seqNo)
    {
      assert Sealed(key, text, seqNo).nonce == MakeNonce(seqNo);
    }
  }

  lemma {:induction false} RunNonces(seal: Sealer, open: Opener, ops: seq<Op>)
    requires Numbered(seal)
    ensures |RunWith(seal, open, ops).nonces| == |SeqNos(ops)|
    ensures forall i :: 0 <= i < |SeqNos(ops)| ==> RunWith(seal, open, ops).nonces[i] == MakeNonce(SeqNos(ops)[i])
  {
    if ops != [] {
      RunNonces(seal, open, ops[..|ops| - 1]);
    }
  }

  /** No nonce is used twice exactly when no sequence number is. */
  lemma NoncesDistinct(key: Bytes32, ops: seq<Op>)
    ensures Distinct(Run(key, ops).nonces) <==> Distinct(SeqNos(ops))
  {
    SealNumbered(key);
    RunNonces(SealWith(key), OpenWith(key), ops);
    var ns, qs := Run(key, ops).nonces, SeqNos(ops);
    forall i, j | 0 <= i < |qs| && i < j < |qs|
      ensures ns[i] == ns[j] <==> qs[i] == qs[j]
    {
      NonceInjective(qs[i], qs[j]);
    }
  }

  /** The ring and the ciphers, driven by any list of operations, do what the run says. */
  method Execute(key: Bytes32, ops: seq<Op>)
    returns (accepted: seq<Sent>, received: seq<Received>, channel: EipcChannel)
    ensures fresh(channel) && channel.Valid()
    ensures accepted == Run(key, ops).accepted && received == Run(key, ops).received
    ensures channel.queue == Run(key, ops).queue
  {
    channel := new EipcChannel();
    accepted, received := [], [];
    for i := 0 to |ops|
      invariant fresh(channel) && fresh(channel.slots) && channel.Valid()
      invariant accepted == Run(key, ops[..i]).accepted && received == Run(key, ops[..i]).received
      invariant channel.queue == Run(key, ops[..i]).queue
    {
      assert ops[..i + 1][..i] == ops[..i];
      match ops[i]
      case SendOp(text, seqNo) =>
        var ok := Send(channel, key, text, seqNo);
        if ok {
          accepted := accepted + [Sent(text, seqNo)];
        }
      case ReceiveOp =>
        var r := Receive(channel, key);
        if r != Nothing {
          received := received + [r];
        }
    }
    assert ops[..|ops|] == ops;
  }
}
