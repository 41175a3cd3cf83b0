# A verified model of ipush

ipush is a push server: clients hold a connection open, other services publish
messages to users or to channels, a cluster of servers shares the users out by
consistent hashing, and messages that cannot be delivered are kept in storage
under a per-user sequence number. It carries its own base library, from which
this project also takes the arithmetic kernels. The project models the parts
where state, interleaving or arithmetic decide whether the result is right, and
proves what they promise for all inputs, all runs or all reachable states.

Run `dafny verify dfyconfig.toml` (Dafny 4.11) to check the project.

## What is modelled

**Idle users (`WheelModel`, `TimingWheel`).** Users sit in a ring of intrusive
doubly linked lists. `TimingWheel` has the list operations, the wheel and the
server's connect, message, disconnect and timer handlers on the heap, including
the timer's walk that unlinks the node it stands on; every handler is proved to
be one step of the machine in `WheelModel`, where the run theorems count ticks.

**The cross-thread queue (`MsgQueueModel`, `MsgQueue`).** A growing power-of-two
ring, and the protocol that sends a wake-up byte only when the length becomes
one and drops the lock around callbacks. The protocol is a state machine over
interleaved steps; the ring and the queue methods refine it, up to the whole
handler that drains the queue.

**Sequence numbers (`SequenceModel`, `Sequence`).** Numbers come from a cached
maximum, or from asynchronous storage queries that may overlap, return in any
order, be out of date or wrong, or fail.

**Channel fan-out (`FanOutModel`, `FanOutDelivery`, `FanOut`).** A cluster of
peers with cached subscriber sets, loads in progress and messages in flight.

**Messages (`MessageFormat`, `MessageExact`) and framing (`Framing`).** The
printer and the parser automaton of the JSON-like text form, and the incremental
reader of length-prefixed frames.

**Sharding (`Sharding`).** The hash ring over any fingerprint function.

`Common` holds the few types and functions that several of these use.

**Kernels.** `LimbMath`, `Bits` and `LimbKernels` carry the arithmetic of 32-bit
limbs and of masks and shifts. On them rest the `Bigint` integers of the decimal
conversion code (`Bigints`) up to the digits of a whole conversion (`Digits`),
the gamma bit codec (`Gamma`), streaming MD5 around an arbitrary block transform
(`Md5`), 128-bit FNV-1a (`Fnv`), UTF-8 (`Utf8`) and the LRU cache (`LruModel`,
`Lru`).

## Where the code is not what one might expect

The model follows the code. These are the places where that shows, each with
its exact condition proved.

- `multadd` drops the addend when its operand is a zero with no limb in use,
  which `mult` always leaves behind and `quorem` for one-limb divisors; `cmp`
  calls two zeros different when only one of them has a limb in use.
- `nextpow2` wraps to 0 for sizes above 2^31, and the ring then gets 1024 slots
  and overwrites unread messages from the 1025th on.
- The parser skips minus signs, so negative numbers come back positive; a
  message without a type comes back empty; a name with a quote or backslash
  does not survive, the longest such name coming back shorter unless parsing
  throws, although the body may have them.
- A frame reader's line ends are greedy: if a chunk ends right after a CR or LF
  of the length line, further CR or LF bytes are taken as payload, otherwise
  they are skipped, even those a payload begins with.
- A new subscription is lost to the cache of the user's own peer if that peer
  has the channel cached and another peer handles the subscription, as client
  and peer messages allow; it can be lost if the channel is not cached there and
  a set of users from storage is on its way, which then becomes the cache.
- FNV reads bytes through a signed `char`, so the first byte from 0x80 on leaves
  the published hash.
- `ZipInt32WithGamma` returns offset 0x20000000 for an empty list, since the
  index less one wraps.
- `MD5Final` clears two words of its context, the size of a pointer, where its
  comment means all of it, so half the digest stays readable there; the
  comment's "MSB-first" count is stored low word first, as section 3.2 of
  RFC 1321 asks.
- `CBU_SENTINEL` is documented as negative, but code points are unsigned here,
  so it is 0xffffffff.
- Putting the pointer that an LRU entry already holds does not count as a use.

## Model

| member | source | states |
|---|---|---|
| `WheelModel.SlotLagsTicks` | src/user.h:64-89 | over every run, a user's bucket lies exactly the ticks since their last event behind the head, modulo the wheel size, and closing users have waited fewer than n ticks |
| `WheelModel.DueIffTicks` | src/session_server.cc:702-721 | a connected user is in the bucket at the head exactly when the next tick is a multiple of n since their last event |
| `WheelModel.ClosedAtTickN` | src/session_server.cc:702-721 | without heartbeats a tick closes exactly those connected users for whom it is the n-th tick since their last event |
| `WheelModel.HeartbeatEveryN` | src/session_server.cc:702-721 | with heartbeats a tick beats exactly those stream users for whom it is a multiple of n since their last event |
| `WheelModel.ConnectedUntilTickN` | src/session_server.cc:702-721 | a user left alone stays connected exactly until the n-th tick, or forever if it is a stream user under heartbeats |
| `WheelModel.Replacing` | src/session_server.cc:287-298 | a login equals dropping the connection under that id and logging in afresh |
| `TimingWheel.PushBack` | deps/base/dlist.h:67-77 | the list with its header and links becomes the old one with the node behind it |
| `TimingWheel.Remove` | deps/base/dlist.h:45-59 | header and links of the others form the list without the k-th node, whose own links stay readable |
| `TimingWheel.UserCircleQueue.RemoveUser` | src/user.h:74-78 | all bucket lists stay well formed and disjoint and agree with each user's bucket number; exactly the one user leaves; a user never pushed is left alone |
| `TimingWheel.UserCircleQueue.PushUserBack` | src/user.h:80-85 | the same invariant, with the user moved to the bucket the timer reaches last |
| `TimingWheel.UserCircleQueue.IncHead` | src/user.h:87-89 | the head moves one bucket on, modulo the size |
| `TimingWheel.SessionServer.Connect` | src/session_server.cc:287-298 | a login or relogin is the Connect step of the machine, and wheel and user table keep holding the same users |
| `TimingWheel.SessionServer.OnUserMessage` | src/session_server.cc:756-767 | a message from a connected user is the Message step, from anyone else nothing |
| `TimingWheel.SessionServer.OnUserDisconnect` | src/session_server.cc:901-907 | a disconnect is the Disconnect step |
| `TimingWheel.SessionServer.OnTimer` | src/session_server.cc:702-721 | a tick is the Timer step, and the ids closed and beaten are those due, each once, in list order |
| `TimingWheel.SessionServer.WalkFront` | deps/base/dlist.h:11-28 | the walk visits every user of the front list once although it unlinks the current node |
| `MsgQueueModel.StepKeepsInv` | src/event_msgqueue.c:137-158 | every step of pushers and popper keeps the invariant that a nonempty queue has a wake-up byte pending, a push about to send one, or a drain under way |
| `MsgQueueModel.EveryRunKeepsInv` | src/event_msgqueue.c:208-220 | the same in every state of every interleaving: no wake-up is lost |
| `MsgQueueModel.HistoriesAreExact` | src/event_msgqueue.c:137-158 | the recorded histories are the pushes accepted and the callbacks made in the run itself |
| `MsgQueueModel.CallbacksSeeAcceptedInOrder` | src/event_msgqueue.c:137-158 | what callbacks saw, followed by what is queued, is what was accepted: once each, in push order, and never more than the bound outstanding |
| `MsgQueueModel.QuiescentDeliveredAll` | src/event_msgqueue.c:137-158 | when only a push is possible, every accepted message has been delivered |
| `MsgQueueModel.DrainsBounded` | src/event_msgqueue.c:137-158 | without further pushes only boundedly many steps are possible |
| `MsgQueue.NextPow2IsLeast` | src/event_msgqueue.c:44-52 | for 1 to 2^31 the result is the least power of two that is not smaller; for 0 and above 2^31 it is 0 |
| `MsgQueue.CircQueue.constructor` | src/event_msgqueue.c:58-74 | an empty queue, whose array fits the bound exactly if the size is at most 2^31; above that, and without a bound, it has 1024 slots |
| `MsgQueue.CircQueue.Grow` | src/event_msgqueue.c:81-108 | doubling a full, possibly wrapped ring keeps contents and order |
| `MsgQueue.CircQueue.PushTail` | src/event_msgqueue.c:110-122 | refused exactly at the bound; accepted, the contents gain the message at the end if the array has room or may grow; in a full array smaller than the bound, the message replaces those a whole number of rounds back and every other place keeps its own |
| `MsgQueue.CircQueue.PopHead` | src/event_msgqueue.c:124-135 | the first of the contents and the rest, or none |
| `MsgQueue.FirstIsLost` | src/event_msgqueue.c:58-135 | at every size above 2^31, after 1025 pushes the first pop gives the last message |
| `MsgQueue.EventMsgQueue.Push` | src/event_msgqueue.c:208-220 | a push is the Push step of the protocol and reports whether it was accepted |
| `MsgQueue.EventMsgQueue.Drain` | src/event_msgqueue.c:144-157 | one turn of the drain loop is the PopOne step, or Finish when the queue is empty |
| `MsgQueue.EventMsgQueue.Pop` | src/event_msgqueue.c:137-158 | the whole handler, with no push meanwhile, hands everything queued to callbacks in order, after which they have seen all that was ever accepted; the queue is empty and the invariant of the protocol holds |
| `SequenceModel.StepKeepsInv` | src/session_server.cc:353-415 | while storage answers truthfully, sends, answers, failures and saves in any order keep all known, reported and stored numbers below the cached maximum, or storage untouched while there is none |
| `SequenceModel.StepGrows` | src/session_server.cc:353-415 | every step, with any answer of storage, keeps the log increasing and below the cached maximum |
| `SequenceModel.NumbersAlwaysGrow` | src/session_server.cc:366-391 | over every run and whatever storage answers, each assigned number exceeds all earlier ones of the user and every maximum reported before it |
| `SequenceModel.NumbersAreNew` | src/session_server.cc:366-391 | over every run in which storage answers with its greatest number, each assigned number exceeds everything stored at the start |
| `SequenceModel.NoNumberTwice` | src/session_server.cc:366-391 | no two messages of a user get the same number, whatever storage answers |
| `Sequence.SessionServer.Connect` | src/session_server.cc:300-303 | a login is the Connect step: an entry without a known maximum if there is none, and nothing else |
| `Sequence.SessionServer.SendSave` | src/session_server.cc:353-392 | a send is the Send step, asking storage exactly when no maximum is known; unless it asks, a connected user is sent the message at once under its new number; a message that never expires changes no number and keeps its own |
| `Sequence.SessionServer.OnMaxSeq` | src/session_server.cc:372-387 | the callback is the Answer step, and a connected user is sent the message under the number it got; on an error it is Fail, and nobody is sent it |
| `FanOutModel.RightExactly` | src/session_server.cc:417-457 | the cache of a user's own peer is right about them in every continuation without a change of theirs exactly if it is now and, while there is none, so is every set of users on its way from storage |
| `FanOutModel.QuietExactly` | src/session_server.cc:599-629 | a subscription change leaves that so, in every continuation, exactly if storage has it already, or the peer has the channel cached and handles the change, or has it not cached and no set of users on its way |
| `FanOutModel.StepRight` | src/session_server.cc:417-457 | every other step keeps that property, and the stored subscription |
| `FanOutModel.CachedSetsAreStoredSets` | src/session_server.cc:599-629 | over every run from any storage a cached channel agrees with storage on the users its peer owns, if their own changes of that channel were such; all else is free |
| `FanOutDelivery.AtMostOneCopy` | src/session_server.cc:503-516 | over every run from any storage no user is sent a message more often than it was published, whatever subscriptions, overlapping loads and failures do |
| `FanOutDelivery.OneCopyPerSubscriber` | src/session_server.cc:417-457 | over every run from any storage with one publication of the message: once a user's own peer is done with it, it was sent to them once if they were subscribed at the publication, else not at all, if their own changes of the channel before it were such as above, there was none after it, and the load at their own peer, if any, did not fail; other users, channels and messages are free |
| `FanOutDelivery.SubscribingDuringALoad` | src/session_server.cc:423-445 | a subscription handled after storage answered a first load, but before the answer arrives, is missing from the cache |
| `FanOutDelivery.LoadingStateIsReachable` | src/session_server.cc:421-423 | such a state is two steps from a start |
| `FanOutDelivery.SubscribingElsewhere` | src/session_server.cc:599-613 | four steps from a start: once the owner's peer has the channel cached, a subscription handled by any other peer is missing from that cache |
| `FanOut.SessionServer.Subscribe` | src/session_server.cc:599-613 | the peer's cache follows the cluster's subscription step |
| `FanOut.SessionServer.Unsubscribe` | src/session_server.cc:615-629 | the peer's cache follows the cluster's unsubscription step |
| `FanOut.SessionServer.SendChannelMsg` | src/session_server.cc:417-457 | the calls made and the load started are those of the cluster's send step: one copy per cached user the shard owns |
| `FanOut.SessionServer.OnChannelUsers` | src/session_server.cc:423-445 | the calls made and the cache are those of the cluster's load step; a cache entry already there is kept |
| `MessageFormat.Serialize` | src/message.h:330-375 | the stream is the text form that the round-trip results are about |
| `MessageFormat.EscapeBody` | src/message.h:330-375 | the body is escaped as those results use it |
| `MessageFormat.UnserializeString` | src/message.h:203-328 | the loop computes the fold of the parser automaton, including where it stops and where it throws |
| `MessageFormat.ParseDecimal` | src/message.h:169-201 | a printed number is read back exactly if it fits the type, otherwise reading it throws |
| `MessageFormat.ParsedBack` | src/message.h:203-375 | what a message with plain names parses back to, for every value of its numbers: signs lost, or an exception when the magnitude does not fit |
| `MessageFormat.UntypedParsesEmpty` | src/message.h:203-375 | a message without a type parses back to the empty message |
| `MessageExact.ImproperComesBackShorter` | src/message.h:203-328 | of the names with a quote or backslash the longest comes back shorter, unless parsing throws |
| `MessageExact.RoundTripExactly` | src/message.h:203-375 | parsing undoes printing exactly if the message is empty, or its type is not negative, sequence number and lifetime are at least -1 and no name has a quote or backslash |
| `Framing.HttpSession.OnReceive` | src/http_session.cc:80-119 | a call leaves the connection as the specification of the framing loop says, and throws when that does |
| `Framing.PumpAt` | src/http_session.cc:80-119 | a call on any part of a frame stream terminates holding only an unfinished frame, and payloads delivered plus payloads left stay the same |
| `Framing.EveryFragmentationDelivers` | src/http_session.cc:80-119 | every way of cutting well-formed frames into calls delivers exactly their payloads, in order |
| `Framing.AnyCutExactly` | src/http_session.cc:80-119 | for every stream of frames, all ways of cutting it deliver the payloads, in order, exactly if no payload begins with CR or LF |
| `Framing.CutAfterLineEnd` | src/http_session.cc:80-119 | cutting behind the first line-end byte changes the first payload exactly if more line-end bytes follow |
| `Framing.HexLineReadsBack` | src/http_session.cc:80-119 | a printed length reads back as itself |
| `Sharding.RingAt` | src/sharding.h:16-25 | a point is on the ring exactly if some node hashes to it, and belongs to the last such node of the list |
| `Sharding.Successor` | src/sharding.h:30-37 | lower bound with wraparound finds the point nearest clockwise |
| `Sharding.SuccessorUnique` | src/sharding.h:30-37 | only one point is nearest |
| `Sharding.Sharding.constructor` | src/sharding.h:16-25 | the nested loops build the ring of the node list |
| `Sharding.Sharding.Get` | src/sharding.h:30-37 | the lookup returns the owner: the node of the nearest point |
| `Sharding.OwnerIsANode` | src/sharding.h:30-37 | every key belongs to one of the nodes |
| `Sharding.AppendMovesOnlyToNew` | src/sharding.h:16-37 | after appending a node a key belongs to it exactly if its nearest point is one of the new node's, and otherwise keeps its owner, whatever points coincide |
| `Bigints.Dtoa.Balloc` | deps/base/dmg_fp.cc:379-418 | a block of the size class, not in use elsewhere, new exactly if the class is not pooled or its free list is empty, and otherwise taken off that list |
| `Bigints.Dtoa.Bfree` | deps/base/dmg_fp.cc:420-442 | the block joins the free list of its class, if the class is pooled |
| `Bigints.Dtoa.MultAdd` | deps/base/dmg_fp.cc:447-502 | b*m + a exactly if b has a limb in use or a is 0, in canonical form |
| `LimbKernels.Hi0Bits` | deps/base/dmg_fp.cc:542-574 | the shift that brings the leading one to the top bit |
| `Bigints.Dtoa.I2B` | deps/base/dmg_fp.cc:624-638 | a one-limb integer of that value |
| `LimbKernels.MulRows` | deps/base/dmg_fp.cc:640-748 | the schoolbook loops give the exact product; no 64-bit sum overflows |
| `Bigints.Dtoa.Mult` | deps/base/dmg_fp.cc:640-748 | the exact product in canonical form, within the capacity chosen; it has no limb in use exactly if it is zero |
| `Bigints.P5IsPower` | deps/base/dmg_fp.cc:750-807 | the j-th cached number is 5^(4*2^j) |
| `Bigints.Dtoa.Pow5Mult` | deps/base/dmg_fp.cc:750-807 | b*5^k for every k, with the cache of powers kept right and only ever extended |
| `Bigints.Dtoa.LShift` | deps/base/dmg_fp.cc:809-867 | b*2^k, the argument freed |
| `Bigints.Cmp` | deps/base/dmg_fp.cc:869-901 | the sign of the difference, exactly if the operands are not two zeros of different length |
| `Bigints.Dtoa.Diff` | deps/base/dmg_fp.cc:903-995 | the absolute difference in normal form, with the sign telling which operand was smaller |
| `LimbKernels.EstimateHigh` | deps/base/dmg_fp.cc:1950-2066 | the quotient of the top limbs, the divisor's rounded up, is low by at most one |
| `Bigints.QuoRem` | deps/base/dmg_fp.cc:1950-2066 | quotient and remainder exactly, in place, with no borrow left over; the remainder has no limb in use exactly if the dividend had none, or the divisor has one limb and divides it with a quotient above 0 |
| `Digits.DShift` | deps/base/dmg_fp.cc:1937-1948 | the shift that puts the divisor's leading bit at place 27 of its limb |
| `Digits.ScaleDivisor` | deps/base/dmg_fp.cc:3858-3865 | after scaling the top limb lies in [2^27, 2^28) |
| `Digits.FixEstimate` | deps/base/dmg_fp.cc:3866-3874 | the estimated exponent is corrected, and the digit limit with it, exactly when the estimate was one too high, leaving one digit before the point |
| `Digits.NoPlaces` | deps/base/dmg_fp.cc:3875-3886 | when the last place wanted lies before the first digit, the answer is no digit or a one, whichever is nearest, ties to even |
| `Digits.EmitDigits` | deps/base/dmg_fp.cc:3986-3998 | the digits are those of the decimal expansion of b/S, and the remainder accounts for what is cut off |
| `Digits.BumpUp` | deps/base/dmg_fp.cc:4008-4026 | rounding up adds one in the last place, carrying through nines and dropping zeros |
| `Digits.RoundedDigits` | deps/base/dmg_fp.cc:3986-4026 | b/S rounded to exactly the wanted number of places, nearest, ties to even, with trailing zeros dropped |
| `Digits.DecimalDigits` | deps/base/dmg_fp.cc:3593-4026 | scaling, digit loop and rounding together give b*5^b5*2^b2 / (5^s5*2^s2) rounded at the place the mode asks for (a number of significant digits, at least one, or of digits behind the point, even if that place lies before the first digit), nearest, ties to even, without leading or trailing zeros, under the right exponent |
| `Digits.NearestEvenUnique` | deps/base/dmg_fp.cc:4008-4026 | only one integer is the nearest with ties to even |
| `Gamma.SetBit` | deps/base/gamma_compression.h:27-29 | the buffer as a row of bits, with that bit set |
| `Gamma.ClearBit` | deps/base/gamma_compression.h:31-33 | the buffer as a row of bits, with that bit cleared |
| `Gamma.ReadBit` | deps/base/gamma_compression.h:35-37 | that bit of the row |
| `Gamma.ZipInt32WithGamma` | deps/base/gamma_compression.h:39-79 | whatever the buffer held, it starts with the code words and every later bit is as it was |
| `Gamma.UnzipInt32WithGamma` | deps/base/gamma_compression.h:81-105 | a buffer that starts with the code words of a list gives the list back, ending where zipping ended |
| `Gamma.RoundTrip` | deps/base/gamma_compression.h:39-105 | unzipping undoes zipping for every list, both ending at the same offset, which is the bit count over eight, rounded up, exactly if the list is not empty, and 0x20000000 if it is |
| `Md5.CounterExact` | deps/base/md5.cc:168-173 | the two-word counter is 8 times the length, modulo 2^64, for any lengths added |
| `Md5.Context.ByteReverse` | deps/base/md5.cc:37-45 | on a little-endian machine nothing changes |
| `Md5.Context.Update` | deps/base/md5.cc:163-207 | the context stands for the old message with the new bytes appended |
| `Md5.Context.Final` | deps/base/md5.cc:213-252 | the digest of the whole message, padded as sections 3.1 and 3.2 of RFC 1321 say and folded block by block; the second half of the digest can still be read in the context |
| `Md5.DigestOfChunks` | deps/base/md5.cc:149-252 | however a message is cut into calls, the digest is that of the whole |
| `Fnv.UpdateExact` | deps/base/hash.cc:206-229 | from any state one byte is mixed in as h := ((h xor byte)*(2^88 + 0x13b)) mod 2^128 exactly if it is below 0x80 |
| `Fnv.FNVUpdate` | deps/base/hash.cc:206-229 | the array holds the limbs that these results are about |
| `Fnv.FollowsExactly` | deps/base/hash.cc:478-536 | the limbs hold the published hash after every prefix exactly if all bytes are below 0x80 |
| `Fnv.FNV128` | deps/base/hash.cc:478-536 | the digest is the value of the limbs modulo 2^128, although the top limb is never reduced; for bytes below 0x80 it is the published hash |
| `Utf8.SyntaxIsEncoding` | deps/base/icu_utf.cc:136-231 | the syntax of section 4 of RFC 3629 describes exactly the sequences that section 3 produces |
| `Utf8.ReadTrail` | deps/base/icu_utf.cc:147-181 | the fall-through switch computes the code point and flags a bad trail byte or a value above 0x10ffff, and nothing else |
| `Utf8.NextCharSafeBody` | deps/base/icu_utf.cc:136-231 | in every mode, the code point if the bytes are those of one that the mode admits; otherwise the error value, behind the trail bytes that belong to the lead byte; from mode 0 on the result always tells how many bytes were taken |
| `Utf8.Next` | deps/base/icu_utf.h:195-204 | always advances, never passes the end, gives the scalar value of the bytes taken, and the sentinel exactly where no well-formed sequence starts |
| `Utf8.AppendUnsafe` | deps/base/icu_utf.h:219-236 | the bytes of the code point are written and no others |
| `Utf8.PrefixFree` | deps/base/icu_utf.h:219-236 | no code point's bytes begin another's |
| `Utf8.DecodeAll` | deps/base/icu_utf.h:195-204 | iterating gives no sentinel exactly on valid strings, and then the encoded text |
| `Utf8.RoundTrip` | deps/base/icu_utf.h:195-236 | decoding undoes encoding on every sequence of scalar values |
| `LruModel.ListIsTable` | deps/base/lru_cache-inl.h:17-71 | over every run the list holds the entries of a table that remembers when each key was last touched and drops the oldest, most recent first |
| `LruModel.NeverTooLarge` | deps/base/lru_cache-inl.h:59-64 | no run leaves more entries than the maximum |
| `LruModel.EvictAgrees` | deps/base/lru_cache-inl.h:59-64 | dropping the last of the list drops what was touched longest ago |
| `LruModel.PutRefreshesExactly` | deps/base/lru_cache-inl.h:38-65 | putting a key that is held brings it to the front exactly if it is there or the pointer is not the identical non-null one |
| `LruModel.PutAgainAndEvicted` | deps/base/lru_cache-inl.h:38-65 | put again with the pointer it holds and then evicted first, in a cache of two |
| `Lru.LRUCache.Get` | deps/base/lru_cache-inl.h:17-31 | the value held, or none, and the Get step of the list; index and list keep describing the same keys |
| `Lru.LRUCache.Put` | deps/base/lru_cache-inl.h:38-65 | the Put step of the list, which is no change for the identical non-null pointer |
| `Lru.LRUCache.RemoveValue` | deps/base/lru_cache.h:47-53 | exactly that key leaves list and index |
| `Lru.LRUCache.Clear` | deps/base/lru_cache-inl.h:67-71 | an empty cache |

## Left out

- HTTP handling, sockets, libevent, replies, Relay, logging, statistics counters and configuration: input and output around the modelled state.
- `SessionServer::Stop` and destructors: they clear the user table without unlinking the wheel, so its invariant is for the running phase.
- Object lifetime, such as sessions freed inside their own callbacks and iterators captured by lambdas.
- Storage and the peer link: storage is a set of numbers and a map of channels that answers queries at some moment after the call; the link delivers every message once. Their implementations are not modelled.
- `malloc` failure and a full wake-up channel in the message queue; counters are unbounded where the source has 32-bit lengths.
- The size classes of `Balloc` beyond which blocks are not pooled are modelled, the private memory pool they are first cut from is not.
- Free lists in `Bigints` are sets of blocks, and the cache of powers a sequence, where the source links blocks through a field.
- The rest of dtoa: strtod, bigcomp, the floating-point fast paths and the shortest-output branch.
- Sequence.SessionServer.SendSave: the 32-bit range of sequence numbers is not modelled.
- FanOut.SessionServer.Subscribe: a subscription change reaches storage at the call, whereas the source hands storage an asynchronous write (src/session_server.cc:605, 621) that may take effect later or fail.
- MsgQueue.EventMsgQueue.Push: the protocol is refined for bounds up to 2^31; what a larger bound does to the ring is stated by `PushTail`.
- FanOut.SessionServer.SendChannelMsg: the lifetime carried with the message and the serialisation on the link are not modelled here; `MessageFormat` has the text form.
- Gamma.ZipInt32WithGamma: encodings of 2^32 bits and more, where the 32-bit index wraps, are excluded.
- Md5.Context.Final: the block transform itself is a parameter, and big-endian machines are not modelled.
- Sharding.Sharding.Get: the fingerprint function is a parameter; nothing is said about how evenly it spreads keys.
- Fnv.FNV128: a null pointer or negative length, which end the process, are not modelled.
- WebSocket sessions, authentication, MurmurHash and the content hash, group varint and bloom filter, demangling, string and time utilities: easier than the parts chosen, or without a specification to prove against.
