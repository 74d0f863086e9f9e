# AXIOM kernel: verified model

A Dafny model of the parts of the AXIOM kernel that carry its guarantees: the authenticated
encryption and hashing, the audit log, encrypted communication, capabilities, the security
lattice, the budget scheduler, and the ELF loader with the boot frame allocator under it.

Code that works in place is modelled in place (arrays, classes, loops), and every such method is
proved against a specification function. The specifications are written from the standards the
kernel names, and the theorems are proved about them for all inputs, all runs or all reachable
states.

| file | what it models | main results |
|---|---|---|
| Bytes.dfy | integer encodings, constant-time comparison | encodings are injective; the comparison decides equality |
| Poly1305.dfy | the two-limb authenticator | the result is the tag of section 2.5 of RFC 8439 for every key and message; no wrapping step loses a bit |
| ChaCha20.dfy | the block function | the in-place rounds are section 2.3 of RFC 8439; every schedule of quarter rounds is a bijection, so different keys, counters or nonces never meet before the final addition |
| Aead.dfy | seal and open | exact acceptance, round trip, injective authenticated string, fresh keystream states, the exact length limit |
| Sha256.dfy | streaming hash, HMAC | however a message is cut up, the digest is that of FIPS 180-4; a collision of the hash is a collision of the compression at blocks of the two padded messages, and one of HMAC a collision of the strings the two MACs hash |
| Poly1305Example.dfy, ChaCha20Example.dfy, Sha256Example.dfy | the published examples | section 2.5.2 and sections 2.1.1 and 2.3.2 of RFC 8439 and the one-block example of FIPS 180-4, computed step by step, which fix the constants, byte orders and wiring that the laws leave open |
| SessionKey.dfy | HKDF session keys | a key belongs to one chain hash and one ordered pair of endpoints, or strings the two derivations hash collide |
| Meal.dfy | the hash-chained audit ring | appended logs always verify; verification passes exactly the runs of consecutive events, or strings of that log collide |
| Eipc.dfy | the ring channel with the AEAD | over every interleaving the receiver gets the accepted texts in order, authenticated, none lost; nonces repeat exactly when sequence numbers do |
| Capability.dfy | minting, verifying, deriving | along every chain authority only narrows; a MAC commits to the whole line of descent, or strings of the two chains collide |
| Lattice.dfy | verifier, join, meet, reconfiguration, read and write checks | verification accepts exactly the bounded partial orders; over every run, by reads alone and by writes alone, information can get from one level to another exactly if the order allows it |
| Scheduler.dfy | task accounts and round-robin switching | after K timer ticks the turn, every account, every saved stack pointer and the fence total are exact functions of the run |
| Frames.dfy | the boot frame allocator | no frame is handed out twice exactly when the regions' frame ranges do not overlap |
| Elf.dfy | the ELF-64 loader | which files load is an exact condition; a loaded file's segments are realised byte by byte, and nothing mapped before changes |

## Conventions

- A byte is a `bv8` and a word a `bv32`. Other machine integers are natural numbers with an
  explicit bound. Each wrap-around of the kernel is written out.
- The build is taken to be the default one, in which an arithmetic overflow that the code does
  not handle stops the kernel. Where the kernel computes such a sum over its inputs, the model
  either has an explicit outcome for it (the ELF loader) or a precondition that rules it out (the
  length limits of the hash and the cipher, the 64-bit sequence numbers of the log).
- Nothing is assumed about SHA-256 or HMAC. Every binding statement says that two things are
  equal, or that two different strings which the computations in question hash have one digest,
  and it says which strings. That some strings collide is true of every hash and is never the claim.
- The clock, the capability key and the audit key are parameters. So is the page-table mapper:
  how many table frames a page needs, and whether the mapper refuses it for reasons of its own.

## Where code and documentation differ

- kernel/src/lattice.rs:7-15 says that least upper and greatest lower bounds of all pairs are
  verified. The code accepts every bounded partial order (`AcceptsBounded`, `AcceptsExactly`), including one whose
  levels 1 and 2 have no least upper bound (`AcceptsNonLattice`). `join` finds the least upper
  bounds that exist exactly when the order of the indices extends dominance (`JoinLeastExactly`);
  `meet` finds the greatest lower bounds that exist on every accepted order (`MeetGreatest`).
- kernel/src/meal.rs:3-5 says that no entry can be deleted unnoticed. Entries missing at either
  end of the log are not noticed, because `verify_chain` compares neither the first link with the
  genesis hash nor the last hash with `chain_tip`. `PassesExactly` states what it does decide, and
  `ErasureExactly` the same on the slots of the ring.
- The repository's README.md:87 says that messages are authenticated with HMAC-SHA-256. The code uses
  ChaCha20-Poly1305, and so does the model.

## Model

| member | source | states |
|---|---|---|
| Bytes.ConstantTimeEqual | kernel/src/crypto.rs:214-218 | or-ing the differences of two strings together decides whether they are equal |
| Poly1305.AbsorbIsPolynomial | kernel/src/poly1305.rs:62-175 | reducing at every block gives the polynomial in r modulo 2^130 - 5, from any accumulator |
| Poly1305.LoadLe | kernel/src/poly1305.rs:24-29 | zero-filling at the top keeps the little-endian value |
| Poly1305.Clamp | kernel/src/poly1305.rs:13-21 | the seven masked bytes, and the other nine unchanged |
| Poly1305.ClampedBytes | kernel/src/poly1305.rs:13-21 | those bytes are the clamping mask of section 2.5 of RFC 8439 |
| Poly1305.MultiplierBound | kernel/src/poly1305.rs:13-21 | the clamped multiplier is below 2^124 for every key |
| Poly1305.MulHighExact | kernel/src/poly1305.rs:113-140 | the four 64-bit products and their wrapping sums give the exact high half of a 256-bit product |
| Poly1305.WithOneBit | kernel/src/poly1305.rs:64-84 | a full or short block with its 1 bit is the value of the block with a 1 byte appended |
| Poly1305.AddCoefficient | kernel/src/poly1305.rs:64-84 | adding a block loses no carry, and the high limb is at most 5 |
| Poly1305.WideProduct | kernel/src/poly1305.rs:113-140 | the product with r is held exactly in two limbs, the high one below 6 * 2^124 |
| Poly1305.FoldBack | kernel/src/poly1305.rs:150-154 | the times-5 fold keeps the residue, wraps nowhere, and leaves less than twice the prime |
| Poly1305.ReduceOnce | kernel/src/poly1305.rs:159-163 | at most the prime is left, same residue |
| Poly1305.AddBlock | kernel/src/poly1305.rs:62-164 | one block: (h + c) * r modulo the prime, and the bound at the block boundary |
| Poly1305.AbsorbMessage | kernel/src/poly1305.rs:166-175 | the loop over full blocks and the short one absorbs exactly the coefficients of the message |
| Poly1305.FinalReduce | kernel/src/poly1305.rs:179-185 | one subtraction leaves the accumulator below the prime, equal to its residue |
| Poly1305.AddSummand | kernel/src/poly1305.rs:188-189 | the wrapping addition of the low limb and s is the whole sum modulo 2^128 |
| Poly1305.Authenticate | kernel/src/poly1305.rs:41-190 | the tag of section 2.5 of RFC 8439, for every key and every message |
| Poly1305Example.TagExample | kernel/src/poly1305.rs:41-190 | the tag of the example of section 2.5.2 of RFC 8439: which half of the key is which, the mask, the appended byte, the byte order |
| ChaCha20.LineInvertible | kernel/src/crypto_aead.rs:14-19 | each line of the quarter round is undone by another, from both sides |
| ChaCha20.QuarterInvertible | kernel/src/crypto_aead.rs:14-19 | so is the quarter round |
| ChaCha20.ApplyInvertible | kernel/src/crypto_aead.rs:36-43 | every schedule of quarter rounds is a bijection of the 16-word states |
| ChaCha20.InitialInjective | kernel/src/crypto_aead.rs:24-34 | the initial state determines key, counter and nonce |
| ChaCha20.RoundsSeparate | kernel/src/crypto_aead.rs:24-44 | different (key, counter, nonce) are at different states after the ten double rounds |
| ChaCha20.Qr | kernel/src/crypto_aead.rs:14-19 | the in-place quarter round is the one of section 2.1 of RFC 8439 |
| ChaCha20.RunRounds | kernel/src/crypto_aead.rs:36-43 | the in-place loop applies the schedule, however often it is repeated |
| ChaCha20.LoadState | kernel/src/crypto_aead.rs:24-34 | constants, key words, counter and nonce words in place |
| ChaCha20.KeystreamBlock | kernel/src/crypto_aead.rs:23-49 | the 64 bytes of section 2.3 of RFC 8439 |
| ChaCha20Example.QuarterOnWords | kernel/src/crypto_aead.rs:14-19 | the quarter round in place is the quarter round on its four words |
| ChaCha20Example.QuarterExample | kernel/src/crypto_aead.rs:14-19 | the example of section 2.1.1 of RFC 8439 |
| ChaCha20Example.TenDoubles | kernel/src/crypto_aead.rs:36-43 | the ten double rounds of the example of section 2.3.2 of RFC 8439, column by column and diagonal by diagonal |
| ChaCha20Example.BlockExample | kernel/src/crypto_aead.rs:23-49 | the block of that example: the constants, the schedule, the final addition, the byte order |
| Aead.CryptInvolution | kernel/src/poly1305.rs:210-222 | encrypting twice gives the data back |
| Aead.CryptByte | kernel/src/poly1305.rs:210-222 | byte j is encrypted with byte j mod 64 of block 1 + j div 64 |
| Aead.MacInputBlocks | kernel/src/poly1305.rs:224-237 | the authenticated string is a whole number of 16-byte blocks, so the short-block path is never taken |
| Aead.MacInputInjective | kernel/src/poly1305.rs:224-237 | authenticated strings are equal exactly when associated data and ciphertext are |
| Aead.CoefficientsSeparate | kernel/src/poly1305.rs:224-239 | different (associated data, ciphertext) give different polynomials |
| Aead.SharedTag | kernel/src/poly1305.rs:259-278 | different pairs share a tag exactly when their polynomials, which differ, agree at the secret point up to a multiple of 2^128 |
| Aead.StatesFresh | kernel/src/poly1305.rs:203-222 | no two blocks under one key, the one-time-key block 0 included, share a state unless number and nonce agree |
| Aead.CryptBlock | kernel/src/poly1305.rs:213-221 | one keystream block over its part of the data, the rest of the buffer untouched |
| Aead.CryptInto | kernel/src/poly1305.rs:210-222 | the block loop lays the keystream from block 1 over the data; its 32-bit counter overflows exactly when the data is longer than 64 * (2^32 - 2) bytes |
| Aead.BuildMacInput | kernel/src/poly1305.rs:224-237 | the four copies into the zeroed buffer build the string of section 2.8 of RFC 8439 |
| Aead.Seal | kernel/src/poly1305.rs:196-240 | ciphertext and tag of section 2.8 of RFC 8439, the tag under the first half of block 0, buffer beyond the plaintext untouched; the blocks used are 0, 1, 2, ..., each once |
| Aead.Open | kernel/src/poly1305.rs:244-293 | accepts exactly the tag under the first half of block 0; decrypts then, and leaves the buffer untouched and no other block used otherwise |
| Aead.SealThenOpen | kernel/src/poly1305.rs:196-293 | what was sealed is accepted and opens to the plaintext, for every length up to the limit |
| Sha256.Expand | kernel/src/crypto.rs:41-58 | the 64 words of the message schedule |
| Sha256.CompressInPlace | kernel/src/crypto.rs:40-97 | the 64 rounds on the eight working variables and the final addition are the compression of section 6.2.2 of FIPS 180-4 |
| Sha256.FoldAppend | kernel/src/crypto.rs:115-129 | folding over a concatenation at a block boundary is folding twice |
| Sha256.FoldPad | kernel/src/crypto.rs:132-163 | closing the last short block with one or two blocks is folding over the padded message |
| Sha256.Hasher.constructor | kernel/src/crypto.rs:110-112 | an empty message absorbed |
| Sha256.Hasher.Update | kernel/src/crypto.rs:115-129 | pieces add up: the state is the fold over the full blocks and the buffer the rest, whatever the cuts |
| Sha256.Hasher.TakePiece | kernel/src/crypto.rs:118-128 | filling the buffer, and compressing it exactly when it is full |
| Sha256.Hasher.Finalize | kernel/src/crypto.rs:132-163 | the digest of everything fed in, with the padding of section 5.1.1 of FIPS 180-4 |
| Sha256.Hash | kernel/src/crypto.rs:169-173 | the digest of the input |
| Sha256Example.DigestAbc | kernel/src/crypto.rs:14-173 | the digest of "abc" as FIPS 180-4 gives it, by way of its schedule and working variables: the constants, the rounds, the padding, the byte orders |
| Sha256.ComputeHmac | kernel/src/crypto.rs:179-208 | section 2 of RFC 2104, long keys hashed first |
| Sha256.HmacIs | kernel/src/crypto.rs:179-208 | for keys of at most a block, the two masked blocks 36 and 5c spelled out; longer keys are replaced by their digest |
| Sha256.FoldCollision | kernel/src/crypto.rs:40-97 | equal folds of different strings of one length: at some block of both, the two compressions have different inputs and one output |
| Sha256.DigestCollision | kernel/src/crypto.rs:132-173 | the same at blocks of the two padded messages for every collision of the hash, at one place if the messages are equally long |
| Sha256.HmacCollision | kernel/src/crypto.rs:179-208 | one MAC for two different texts, or for two keys that are different once hashed or zero-filled to a block: the outer strings the two MACs hash collide, or the inner ones do |
| SessionKey.KeysSeparate | kernel/src/crypto_aead.rs:95-102 | one session key means one chain hash, sender and receiver, or strings hashed by the two expansions or the two extractions collide |
| SessionKey.ExpandOnce | kernel/src/crypto_aead.rs:77-84 | the first block of the expansion of RFC 5869, over at most 127 bytes of info |
| SessionKey.DeriveKey | kernel/src/crypto_aead.rs:95-102 | extraction with a zero salt, then expansion over the label, the sender, the receiver and the block number, in that order |
| Meal.AuthBytesParts | kernel/src/meal.rs:83-95 | every field at its offset, little-endian, and zero in the two gaps |
| Meal.AuthBytesInjective | kernel/src/meal.rs:83-95 | the 80 bytes determine every field but the MAC |
| Meal.Codes | kernel/src/meal.rs:25-42 | the code of every event |
| Meal.ChainedAppend | kernel/src/meal.rs:127-145 | an entry linked to the tip keeps a history chained, numbered and authenticated |
| Meal.RecordsAppend | kernel/src/meal.rs:139-143 | writing slot total mod 64 keeps the last 64 events in the ring |
| Meal.ScanIsWindow | kernel/src/meal.rs:156-161 | however often the ring has wrapped, the scan is the last min(total, 64) events in order |
| Meal.RunsPass | kernel/src/meal.rs:147-171 | every run of consecutive events of a genuine history verifies |
| Meal.MealLog.constructor | kernel/src/meal.rs:116-125 | an empty log whose tip is the genesis hash |
| Meal.MealLog.Append | kernel/src/meal.rs:127-145 | the next entry, stamped and linked, joins the history, and ring, head, count and tip follow it |
| Meal.MealLog.VerifyEntry | kernel/src/meal.rs:147-152 | accepts exactly the HMAC of the 80 bytes under the audit key |
| Meal.MealLog.VerifyChain | kernel/src/meal.rs:156-171 | the verdict on any ring contents is that of the chain conditions, the count on failure the first fault; on an appended log it is (min(total, 64), true) |
| Meal.OnlyRunsPass | kernel/src/meal.rs:156-171 | entries of a log dropped, repeated or reordered in any way and still passing are a run of consecutive events, or two strings that log hashes collide |
| Meal.PassesExactly | kernel/src/meal.rs:156-171 | verification passes exactly the runs, unless two strings that log hashes collide |
| Meal.ErasureExactly | kernel/src/meal.rs:156-171 | clearing any run of occupied slots of an appended log passes verification exactly when the run lies at one of the ends, unless two strings that log hashes collide |
| Meal.ExchangeCaught | kernel/src/meal.rs:156-171 | exchanging any two occupied slots of an appended log fails verification, or two strings that log hashes collide |
| Meal.TipBinds | kernel/src/meal.rs:83-171 | two passing scans of one length with one last hash agree on every field and MAC, or the serialisations of their entries at one place collide |
| Eipc.Pushed | kernel/src/eipc.rs:48-54 | writing the tail slot appends to the queue the ring holds |
| Eipc.Popped | kernel/src/eipc.rs:57-63 | clearing the head slot removes the oldest |
| Eipc.EipcChannel.constructor | kernel/src/eipc.rs:38-44 | an empty queue |
| Eipc.EipcChannel.Enqueue | kernel/src/eipc.rs:48-54 | accepts exactly when fewer than four are queued, and then appends |
| Eipc.EipcChannel.Dequeue | kernel/src/eipc.rs:57-63 | takes the oldest message, or nothing exactly from an empty queue |
| Eipc.NonceIs | kernel/src/eipc.rs:82-86 | four zero bytes and the number, least significant byte first |
| Eipc.NonceInjective | kernel/src/eipc.rs:82-86 | nonces are equal exactly when sequence numbers are |
| Eipc.SealedOpens | kernel/src/eipc.rs:126-165 | every sealed message authenticates and opens to its text |
| Eipc.SealMessage | kernel/src/eipc.rs:126-144 | the message carries the nonce of its number, the text encrypted under it, and the tag over label and ciphertext |
| Eipc.OpenMessage | kernel/src/eipc.rs:160-173 | opens exactly when the tag is right, to the decrypted text, and is rejected otherwise |
| Eipc.NoStateReused | kernel/src/eipc.rs:126-133 | different sequence numbers never share a keystream state |
| Eipc.Send | kernel/src/eipc.rs:126-147 | seal then enqueue: the queue grows by the sealed message exactly when there is room |
| Eipc.Receive | kernel/src/eipc.rs:156-176 | dequeue then open: what the oldest message opens to, or its rejection |
| Eipc.Drain | kernel/src/eipc.rs:156-176 | the receiving loop opens everything queued, in order, and leaves nothing |
| Eipc.RunInOrder | kernel/src/eipc.rs:126-176 | over every interleaving, received is a prefix of accepted, in order, all authenticated, at most four missing |
| Eipc.NothingLost | kernel/src/eipc.rs:126-176 | draining after any run completes it: exactly the accepted texts |
| Eipc.NoncesDistinct | kernel/src/eipc.rs:82-147 | over every run, no two messages carry one nonce exactly when no sequence number repeats |
| Eipc.Execute | kernel/src/eipc.rs:48-176 | ring, cipher and authenticator driven by any operations accept, deliver and keep what the run says |
| Capability.AuthBytesInjective | kernel/src/axiom/capability.rs:48-62 | the 50 bytes determine every field but the MAC |
| Capability.MintExact | kernel/src/axiom/capability.rs:68-78 | a root with the object, rights and expiry asked for, which verifies exactly before that expiry |
| Capability.VerifyExact | kernel/src/axiom/capability.rs:83-91 | verifies exactly before the expiry and with the HMAC of the 50 bytes |
| Capability.DeriveExact | kernel/src/axiom/capability.rs:109-142 | derivation succeeds exactly from a live, authentic parent with bit 3 set and fewer than 64 derivations, for rights that add no bit and no later expiry, and every field of the child |
| Capability.DerivedExact | kernel/src/axiom/capability.rs:109-142 | which pairs can be parent and child at some time, as a condition on their fields |
| Capability.ChainNarrows | kernel/src/axiom/capability.rs:68-142 | against every ancestor: same object, no bit of the rights added, no later expiry, the ancestor can derive, depth counts the derivations up to 64 |
| Capability.NoRightGained | kernel/src/axiom/capability.rs:109-142 | a right any ancestor lacks, no descendant has |
| Capability.ChainLives | kernel/src/axiom/capability.rs:83-91 | it verifies at exactly the times before its expiry, and then all its ancestors do |
| Capability.ChainExtends | kernel/src/axiom/capability.rs:109-142 | a chain can be carried on by some derivation exactly when its last capability expires after time 0, holds DERIVE and is at most 63 derivations deep |
| Capability.MacCommits | kernel/src/axiom/capability.rs:48-142 | two chains ending in one MAC are the same chain, or the MACs, or the strings hashed for the MACs, of a capability of each collide |
| Lattice.JoinFrom | kernel/src/lattice.rs:103-111 | the smallest index that dominates both, if any does |
| Lattice.MeetMaximal | kernel/src/lattice.rs:114-126 | on a partial order, a common lower bound with none strictly above it, if there is any |
| Lattice.MeetGreatest | kernel/src/lattice.rs:114-126 | the greatest lower bound whenever there is one |
| Lattice.JoinLeastExactly | kernel/src/lattice.rs:103-111 | join finds every least upper bound there is exactly when index order extends dominance |
| Lattice.AcceptsExactly | kernel/src/lattice.rs:129-179 | whatever indices bottom and top hold, verification accepts exactly the partial orders that pass the two bound checks and, if there are levels, have a greatest and a least one |
| Lattice.AcceptsBounded | kernel/src/lattice.rs:129-179 | with bottom and top among the levels, exactly the bounded partial orders, and the join and meet checks never fail |
| Lattice.AcceptsNonLattice | kernel/src/lattice.rs:129-179 | a verified order with a pair that has no least upper bound |
| Lattice.NewTopKeeps | kernel/src/lattice.rs:266-279 | a new top keeps the order verified and every old dominance, join and meet answer |
| Lattice.SecurityLattice.DefaultBlp | kernel/src/lattice.rs:59-81 | the four levels in a chain, verified, index order extending dominance |
| Lattice.SecurityLattice.Dominates | kernel/src/lattice.rs:84-88 | the matrix entry, and false outside the levels |
| Lattice.SecurityLattice.Join | kernel/src/lattice.rs:103-111 | the scan returns the first upper bound |
| Lattice.SecurityLattice.Meet | kernel/src/lattice.rs:114-126 | the scan returns the specified lower bound |
| Lattice.SecurityLattice.CheckTransitive | kernel/src/lattice.rs:144-149 | the triple loop decides transitivity |
| Lattice.SecurityLattice.Verify | kernel/src/lattice.rs:129-179 | the first check that fails, for matrices of any size up to 256 |
| Lattice.SecurityLattice.AddTop | kernel/src/lattice.rs:266-279 | one level more above all others; verified stays verified |
| Lattice.StepSecure | kernel/src/lattice.rs:84-126 | every permitted or refused read, write, creation and reconfiguration keeps information confined |
| Lattice.RunSecure | kernel/src/lattice.rs:92-100 | so in every state of every run, what reached an entity came from levels its own dominates |
| Lattice.RunKeepsDominance | kernel/src/lattice.rs:266-279 | through any number of reconfigurations the order of old levels stays |
| Lattice.FlowsExactly | kernel/src/lattice.rs:92-100 | some run of reads alone, and some run of writes alone, carries information from level a to level b exactly if b dominates a |
| Scheduler.ScbaState.constructor | kernel/src/task.rs:41-43 | a fresh account |
| Scheduler.ScbaState.Tick | kernel/src/task.rs:47-50 | one tick consumed, exhausted exactly when the budget is reached, nothing else changed |
| Scheduler.ScbaState.ResetEpoch | kernel/src/task.rs:53-57 | a new epoch, counted as a fence |
| Scheduler.Task.WithBudget | kernel/src/task.rs:73-112 | a ready task with a fresh account |
| Scheduler.Task.Idle | kernel/src/task.rs:115-125 | a running task with the largest budget |
| Scheduler.Scheduler.AddTask | kernel/src/scheduler.rs:41 | one task more, at the end |
| Scheduler.FirstInRing | kernel/src/scheduler.rs:61-68 | the search stops at the first ready task in ring order: all the ones passed are not ready |
| Scheduler.Scheduler.FindReady | kernel/src/scheduler.rs:61-68 | a ready task, the first in ring order, and never the wrap-around exit, whatever the states of the others |
| Scheduler.Scheduler.PrepareSwitch | kernel/src/scheduler.rs:46-78 | charge, fence, choose and hand over, on any state with distinct tasks |
| Scheduler.Scheduler.TimerTick | kernel/src/interrupts.rs:143-164 | a prepared switch is carried out: the pointer reached is saved in the task switched away from, and nothing else changes |
| Scheduler.PassesOn | kernel/src/scheduler.rs:46-78 | with the others ready, every call switches to the next task in the ring and keeps the others ready |
| Scheduler.ChargedSettled | kernel/src/task.rs:47-57 | charging an account that is exact after t ticks gives the one exact after t + 1 |
| Scheduler.RunAccounted | kernel/src/scheduler.rs:46-78 | after K ticks, whatever pointers they save: current is K mod n, K switches, each account t div max(1, B) and t mod max(1, B), the fences add up |
| Scheduler.TaskAccount | kernel/src/task.rs:41-57 | the account of each task after K ticks as numbers: t div m fences and epochs, t mod m consumed, for its t turns and m the budget or 1 |
| Scheduler.RunPointers | kernel/src/scheduler.rs:74-110 | over every run, each tick overwrites the stack pointer of task K mod n and no other |
| Scheduler.EveryTickSwitches | kernel/src/scheduler.rs:46-78 | tick K switches from K mod n to its successor, onto the pointer saved n - 1 ticks before or, on a first turn, the initial one, with a fence exactly when the turn fills a period |
| Scheduler.TickSwitch | kernel/src/scheduler.rs:46-78 | the same as numbers: old task, new pointer, and a fence exactly when m divides the turns of the task |
| Scheduler.Execute | kernel/src/interrupts.rs:143-164 | the idle task and any others created and added, then any number of ticks on the objects: every tick's switch, the balanced books and the saved pointers |
| Frames.FramesDistinctExactly | kernel/src/memory.rs:54-61 | no frame is yielded twice exactly when the regions' frame ranges do not overlap |
| Frames.AlignedSuffices | kernel/src/memory.rs:54-61 | page-aligned starts and disjoint address ranges are enough |
| Frames.BootInfoFrameAllocator.AllocateFrame | kernel/src/memory.rs:65-69 | the next frame of the usable regions, none exactly when they are used up |
| Elf.HeaderEncoded | kernel/src/elf_loader.rs:57-71 | on any ELF-64 file header, which check fails first or that none does, by the values of its fields; entry, table offset, entry size and count are read back |
| Elf.EntryIs | kernel/src/elf_loader.rs:68-140 | a file that loads is entered at the entry address of its header |
| Elf.ParseEncoded | kernel/src/elf_loader.rs:77-99 | any program header, wherever it is and whatever the entry size: skipped unless of type 1, an overflow or bounds error reported, else every field and both permission bits read back |
| Elf.PagesExactly | kernel/src/elf_loader.rs:102-107 | the pages of a segment are exactly the 4096-byte pages its memory reaches into |
| Elf.CanonicalIs | kernel/src/elf_loader.rs:112 | the addresses the page constructor accepts: 17 high bits all equal |
| Elf.CopyIsImage | kernel/src/elf_loader.rs:120-134 | the file bytes that fall into a page, laid over zeroes, are the page's image of the segment |
| Elf.PagesLoadExactly | kernel/src/elf_loader.rs:107-137 | a segment loads exactly when its pages are free, canonical and not refused, its file part ends below 2^64 and the frames suffice; what is left then |
| Elf.LoadsExactly | kernel/src/elf_loader.rs:77-138 | the segments load exactly when all headers are in order, no two segments share a page, each is placeable and the frames suffice for all |
| Elf.OutcomeExactly | kernel/src/elf_loader.rs:51-141 | a file loads exactly when its header is in order and its segments fit |
| Elf.Machine.MapTo | kernel/src/elf_loader.rs:111-116 | a page is entered exactly when it is free, not refused and its tables can be had, and no visible page changes otherwise |
| Elf.Machine.FillFrame | kernel/src/elf_loader.rs:118-134 | zeroing and copying leave the page's image of the segment in the frame |
| Elf.Machine.LoadPage | kernel/src/elf_loader.rs:108-134 | one page more with the segment's permissions and image, every other page unchanged, or the exact failure |
| Elf.Machine.LoadSegment | kernel/src/elf_loader.rs:101-137 | all the pages of the segment, none of them mapped before, and nothing else changed |
| Elf.Machine.LoadAll | kernel/src/elf_loader.rs:77-138 | the segments of all headers in order, or the first failure |
| Elf.Machine.Load | kernel/src/elf_loader.rs:51-141 | entry point, error or panic exactly as the outcome function says; on success the space grows by the file's pages and every byte of every segment is in place; on error what was mapped stays as it was and the next load can start |
| Elf.FileSpaceIs | kernel/src/elf_loader.rs:77-138 | later segments leave the pages of earlier ones alone |
| Elf.LoadedByte | kernel/src/elf_loader.rs:97-134 | every byte of every page of every segment, its slack included, and the page's permissions |
| Elf.CoversExactly | kernel/src/elf_loader.rs:102-105 | all the segment's memory is mapped; its file part is exactly when it ends within the segment's pages |
| Elf.AllRealised | kernel/src/elf_loader.rs:77-138 | after a successful load, byte k of each segment's memory is file byte k below the file size and zero above it, under the segment's permissions |
| Elf.LoadAtBoot | kernel/src/memory.rs:46-69 | over page-aligned usable regions that do not overlap, a fresh allocator makes all of that hold: the exact outcome, and on success every byte of every segment in place and the machine's space grown by exactly the file's pages, slack included |

## Left out

- Hardware and boot code, interrupts, system calls, user mode and assembly: registers, MSRs and raw memory are outside the model.
- Serial port, framebuffer, heap allocator, log buffer and boot scripts: plumbing or thin wrappers over other crates.
- Printing demonstrations and constant self-tests: single-input checks.
- kernel/src/ztdf.rs, kernel/src/net.rs and kernel/src/vmz.rs: whitelist checks, header slicing and one zeroing instruction, which would only add easy members.
- `aead_seal` and `aead_open` of kernel/src/crypto_aead.rs: a single-block variant that the channel does not use.
- kernel/src/axiom/demo_crypto.rs: superseded by kernel/src/crypto.rs.
- Unforgeability, secrecy and timing: not decided by the code; the binding theorems point at the colliding strings instead.
- Locks, dropped `try_lock` attempts and the registers pushed and popped by the stack switch: a tick is one atomic step, and the pointer it saves is any value.
- Level names of the lattice and task stacks: nothing reads them in the modelled operations.
- Aead.Seal: inputs longer than 64 * (2^32 - 2) bytes overflow the block counter (`Aead.CryptInto`), which stops the kernel, and are a precondition.
- Aead.Open: the same length limit.
- Sha256.Hasher.Update: more than 2^61 - 1 bytes in all overflow the bit count and are a precondition.
- Meal.MealLog.Append: the 2^64th entry overflows the counter and is a precondition.
- Scheduler.Scheduler.PrepareSwitch: counters are unbounded, since no counter exceeds the number of calls; the address the old stack pointer is saved to is the index of its task.
- Elf.Machine.Load: after a panic nothing is claimed; the physical-memory window through which frames are written is a map from frames to contents.
- Elf.Machine.MapTo: the mapper belongs to another crate; refusing a mapped page, taking table frames from the same allocator and leaving other pages alone is what the model takes from its interface.
- Lattice.SecurityLattice.AddTop: the code adds level 4 to four levels; the model adds level n to n.
- Lattice.StepSecure: creation of subjects and objects at any level is added so that runs can start from nothing.
