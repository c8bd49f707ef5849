# N64-NetLib: a verified model

This project models the parts of N64-NetLib that move and check data, and proves what they
promise.

- **Reliable UDP** (`Client App/packets.cpp`). Packets carry 16-bit wrapping numbers. Each
  packet acknowledges the last number seen and, in a 16-bit history field, the numbers 1 to 16
  behind it. A receive list of 18 drops duplicates, and a transmit list resends up to 5 times.
  `UDPHandlers` keeps the handler and its packet objects as classes updated in place, each
  method tied to the value functions of `Reliability`. `EndpointHistory` proves what every
  operation keeps; `Network` is the step system of two endpoints over a network that loses,
  repeats and reorders; `Delivery`, `Exchange` and `Guarantee` hold the theorems about every run;
  `Counterexamples` and `Overtaking` hold the runs that show which promises fail.
- **Wire formats** (`packets.cpp` and `N64 Library/netlib.c`). `Codec` gives the byte layouts
  and proves both directions of the round trip, `PacketBytes` the buffer code, and
  `DatagramFormat` what makes a packet readable by the peer: `Delivery.DeliveriesAreDatagrams`
  uses it to show that, in every run, delivering a packet is reading its datagram.
- **Console packets** (`N64 Library/netlib.c`). `NetLibCalls` gives the effect of any sequence of
  library calls, from the zeroed storage on, and proves exactly when the client reads back what
  was built; `NetLibWriter` is the library itself, its buffer and cursor updated in place.
- **SHA-256** (`Client App/sha256.cpp`). `Sha256Spec` is the one-shot definition of FIPS 180-4
  (sections 4.1.2, 4.2.2, 5.1.1, 5.3.3 and 6.2.2); `Sha256` is the buffered implementation,
  proved equal to it; `Sha256Laws` says what the definition's functions, constants and padding
  compute, in other terms, and `Sha256Example` computes the published example.
- **Stream buffer** (`Client App/Include/asio/basic_streambuf.hpp`). `StreamBuf` is the
  four-pointer buffer that shifts and grows.
- **Server registry** (`Master Server/src`). `Registry` is the dispatcher and its workers as
  interleaved steps, with what keeps the table fresh; `RegistryLaws` says who leaves the table,
  which worker gets a datagram, and what a list contains.

## What the proofs found

Reliable delivery does not hold for every reliable packet. An endpoint that has received nothing
already acknowledges number 0, so the first reliable packet may be lost and still leave the
transmit list. An unreliable packet, acknowledgements included, shows the number of the *next*
reliable packet, so receiving the one acknowledges the other. `Guarantee.DeliveryGuarantee` gives
the exact condition: a reliable packet is guaranteed if and only if it is sent right after another
reliable packet. `Counterexamples` exhibits one run for each exception.

Duplicate suppression never discards a new reliable packet (`Delivery.DuplicatesAreTrue`), but it
discards new unreliable ones, acknowledgements included: exactly those that the reliable packet sent
next has overtaken (`Delivery.UnreliableIsOvertaken`, with a run in
`Counterexamples.UnreliablePacketMayBeDiscarded`).

So an acknowledgement that was asked for may be dropped, from any reachable exchange
(`Overtaking.AnswerMayBeOvertaken`). That is harmless when what overtakes it acknowledges the number
itself (`Exchange.ExchangeSettles`), which it does while the number is at most 16 behind and still in
the receive list (`Exchange.StampAcknowledges`); otherwise the number may stay listed though both
packets of the exchange arrived (`Overtaking.OvertakenMayStayListed`).

The console does not always send what was built. `netlib_initialize` does not move the write cursor
and `netlib_start` does not write the fixed header fields, so a write made before the first start
lands on the header and stays there: after one byte written early, the client takes every packet for
another protocol's until the library is initialized again (`NetLibCalls.EarlyWriteSpoilsHeader`).
`NetLibCalls.ReadBack` says exactly which sequences of calls the client reads back.

The master server may remove a server that has just registered again: the refresh can come between
finding the entry stale and removing it (`Registry.RefreshedServerMayBeRemoved`).

The stream buffer's `consume` promises to remove everything when asked for more than there is. For
counts so large that the sum of pointer and count wraps it does not: the get pointer may move back
(`StreamBuf.ConsumeIsClamped`, `StreamBuf.ConsumeAllMovesBack`).

## Readings of the code

- `1 << (delta - 1)` is the power of two kept to 16 bits; distances past 16 contribute nothing.
- A packet handed to `SendPacket` again without being listed, an unreliable one, is sent again as
  it is; the runs of `Network` only send fresh packets and what resending picks.
- The clock is read once for each check and each attempt; the readings are arguments, in any order,
  so in runs "the resend time has passed" is an arbitrary set of list entries. A thrown exception is
  a result value, and a time-out ends the endpoint, as in `Client App/clientwindow.cpp`.
- What a shift by 32 or more, or by a negative number, gives is an argument of the console's
  `Broadcast` and `Send`.
- Addresses in the stream buffer have 64 bits and wrap; a cast to a signed 32-bit integer keeps the
  low 32 bits.
- `serial` and the history `log` are history variables: nothing the code computes depends on them.
- The client is little-endian and the console big-endian, so the first swaps and the second copies.
- Addition modulo 2^32 in `Sha256` is the function `Plus`, and shifts of the 64-bit bit counter
  are divisions. The rotation macro is written out with its constants.

## Model

| member | source | states |
|---|---|---|
| SequenceNumbers.GreaterThanRefinesCounters | Client App/packets.cpp:169-172 | within half the number space, comparing wrapped numbers is comparing the unbounded counters |
| SequenceNumbers.GreaterThanIsForwardDistance | Client App/packets.cpp:169-172 | a number is later exactly at forward distances 1 to 32767, and at 32768 when it is also the larger |
| SequenceNumbers.HalfTurnIsAmbiguous | Client App/packets.cpp:169-172 | half a turn apart, the comparison follows the counters for some and not for others |
| SequenceNumbers.DeltaOfCounters | Client App/packets.cpp:183-189 | the delta is the distance of the counters modulo 65536 |
| SequenceNumbers.IncrementFollowsCounter | Client App/packets.cpp:199-202 | incrementing a wrapped number follows incrementing its counter |
| Bits.AndOneTestsBit | Client App/packets.cpp:696 | masking with a power of two is nonzero exactly when that bit is set |
| Bits.OrHasBothBits | Client App/packets.cpp:383 | the bits of a union are those of either operand |
| Packets.FlagsAreBits | Client App/packets.h:28-29 | flag value 1 marks an unreliable packet, 2 one that asks for an ack |
| Acks.HistoryBitIsTruncatedShift | Client App/packets.cpp:383 | a history bit is the power of two kept to 16 bits, for every distance |
| Acks.HistoryBits | Client App/packets.cpp:381-384 | bit k of the field is set exactly when the number k + 1 behind the remote one is in the receive list |
| Acks.AckRoundTrip | Client App/packets.cpp:376-385 | decoding the acknowledgement a receiver encodes yields its remote number and the listed numbers 1 to 16 behind it, and no others |
| Codec.SwapsAreNetworkOrder16 | Client App/helper.cpp:17-20 | swapping a little-endian number is network order, in both directions |
| Codec.SwapsAreNetworkOrder32 | Client App/helper.cpp:30-33 | the same for 32 bits |
| Codec.SizeIsExactIffFits | Client App/packets.cpp:944-950 | the 16-bit size is the number of bytes written exactly when the payload, with the type string, fits |
| Codec.NetLibLayout | Client App/packets.cpp:1125-1177 | every byte of an encoded NetLib packet, by position and value |
| Codec.S64Layout | Client App/packets.cpp:885-935 | every byte of an encoded S64 packet, by position and value |
| Codec.UpToNul | Client App/packets.cpp:851-857 | a transmitted type string is read up to its first NUL: whole if and only if it has none |
| Codec.NetLibRoundTrip | Client App/packets.cpp:1059-1177 | decoding an encoded NetLib packet, with anything after it, returns it, or reports its version if unsupported |
| Codec.NetLibCanonical | Client App/packets.cpp:1059-1177 | re-encoding a decoded NetLib packet returns the bytes it was read from |
| Codec.S64RoundTrip | Client App/packets.cpp:815-935 | an S64 packet of a supported version survives encoding if and only if its type string has at most 255 bytes and no NUL; other versions are reported |
| Codec.S64Canonical | Client App/packets.cpp:815-935 | re-encoding a decoded S64 packet returns its bytes if and only if the transmitted type string has no NUL |
| Codec.ProtocolsAreDisjoint | Client App/packets.cpp:801-804 | neither decoder takes the other protocol's packets |
| PacketBytes.NetLibGetAsBytes | Client App/packets.cpp:1125-1193 | the buffer allocated by the 16-bit size is filled exactly, with the encoding |
| PacketBytes.NetLibFromBytes | Client App/packets.cpp:1059-1116 | reading field by field is decoding, with the wrong protocol and unsupported versions told apart |
| PacketBytes.S64GetAsBytes | Client App/packets.cpp:885-950 | the buffer allocated by the 16-bit size is filled exactly, with the encoding |
| PacketBytes.S64FromBytes | Client App/packets.cpp:815-876 | reading field by field is decoding, with the wrong protocol and unsupported versions told apart |
| DatagramFormat.DatagramCarriesPacket | Client App/packets.cpp:484-532 | reading the datagram of a packet the protocol carries, whatever follows it, and processing it is processing that packet |
| DatagramFormat.StampedIsCarried | Client App/packets.cpp:230-255 | numbering keeps a packet readable by the peer, and the answer to a readable packet is readable |
| DatagramFormat.AnswerReadsBack | Client App/packets.cpp:235-250 | the reader at the other end makes of an answer an empty packet of version 1 and type "ACK" or 0, unreliable and asking for nothing, which counts as an acknowledgement there |
| UDPHandlers.AbstractPacket.UpdateSendAttempt | Client App/packets.cpp:753-757 | counts an attempt in 8 bits and records when it was made, and changes nothing else of the packet |
| UDPHandlers.UDPHandler.constructor | Client App/packets.cpp:265-278 | a new handler has numbers 0 and empty lists |
| UDPHandlers.UDPHandler.AckBitfield | Client App/packets.cpp:381-384 | the loop over the receive list computes the history field |
| UDPHandlers.UDPHandler.SendPacket | Client App/packets.cpp:366-410 | a fresh packet is stamped, sent and, if reliable, listed and numbered; one from the receive list too, renumbered there before the history field is made; any other, listed or not, is sent unchanged with one more attempt; every attempt but a sixth hands the socket the packet's bytes, a sixth nothing |
| UDPHandlers.DatagramsAreEmissions | Client App/packets.cpp:388-389 | the socket has been handed the bytes of each packet the history emits, in order and once for each emission |
| UDPHandlers.UDPHandler.RemoveAcknowledged | Client App/packets.cpp:438-450 | erasing while iterating leaves, in order, what the packet does not acknowledge |
| UDPHandlers.UDPHandler.RememberReceived | Client App/packets.cpp:456-466 | the receive list keeps the newest 18 |
| UDPHandlers.UDPHandler.HandlePacketSequence | Client App/packets.cpp:422-474 | false exactly for a duplicate number; the new state and history for both outcomes; the socket is handed nothing, or, if flag 2 is set, one datagram that reads back as an empty acknowledgement |
| UDPHandlers.UDPHandler.ReadNetLibPacket | Client App/packets.cpp:513-532 | decodes, and processes only what parses; duplicates give nothing, unsupported versions are reported, both other cases leave the handler unchanged |
| UDPHandlers.UDPHandler.ReadS64Packet | Client App/packets.cpp:484-503 | the same for S64 packets |
| UDPHandlers.UDPHandler.ResendMissingPackets | Client App/packets.cpp:543-548 | hands the socket the bytes of each entry more than 1000 ms past its last attempt, in order, and stops at the first that was sent 5 times; the list keeps its entries, and exactly those attempted get a new send time |
| Reliability.SentAgainAreDue | Client App/packets.cpp:543-548 | the entries sent again are those due with none due before them, or themselves, sent 5 times already, in list order and each once |
| Reliability.EmissionOf | Client App/packets.cpp:388-389 | every first send and every repeated send is an emission of its packet, in order |
| Reliability.EmissionFrom | Client App/packets.cpp:388-389 | and there are no other emissions |
| EndpointHistory.StampIsJustified | Client App/packets.cpp:376-385 | a stamped packet acknowledges only numbers accepted before, and number 0 |
| EndpointHistory.AcksSoundKept | Client App/packets.cpp:366-474 | every operation keeps: all acknowledgements sent, resends included, are for numbers accepted earlier |
| EndpointHistory.NumberedKept | Client App/packets.cpp:376-396 | every operation keeps: packets are numbered by the count of reliable packets sent before them |
| EndpointHistory.ConservesKept | Client App/packets.cpp:376-450 | every operation keeps: the transmit list is, in send order, the reliable packets no later accepted packet acknowledges |
| EndpointHistory.DeduplicatesKept | Client App/packets.cpp:426-466 | every operation keeps: the receive list is the last 18 reliable packets accepted, and no number repeats within 19 |
| EndpointHistory.TracksHighKept | Client App/packets.cpp:452-454 | while packets stay in the window, the remote number is the highest counter accepted, which never falls, and changes exactly when it rises |
| EndpointHistory.BoundsSendsKept | Client App/packets.cpp:366-396 | every operation keeps: attempts count transmissions, at most 5 for each reliable packet |
| EndpointHistory.ReceiveIsMoves | Client App/packets.cpp:422-474 | processing a packet is dropping or taking it and then, exactly if it asks for one, sending the answer of its protocol |
| EndpointHistory.ResendIsMoves | Client App/packets.cpp:543-548 | resending is one repeated send for each due entry, in list order: all of them, or those up to a time-out |
| Network.ResendOnlyResends | Client App/packets.cpp:543-548 | resending numbers nothing, lists nothing and changes only attempt counts |
| Network.ResendArrives | Client App/packets.cpp:543-548 | in a step of a run, resending puts a copy of each entry sent again under way to the other end, in list order |
| Network.OthersStayUnderWay | Client App/packets.cpp:422-548 | a delivery or a loss takes at most its own packet from what is under way, and a loss touches neither end |
| Network.RunKeepsInv | Client App/packets.cpp:366-548 | every run keeps the endpoint invariants, everything under way or processed was emitted by the peer, and everything sent is readable by the peer |
| Delivery.DeliveriesAreDatagrams | Client App/packets.cpp:484-532 | in every run, any packet under way fits a datagram, and delivering it is reading that datagram and processing what was read |
| Delivery.AckSoundness | Client App/packets.cpp:366-474 | in every run, a number dropped from a transmit list is 0 or was accepted by the peer before |
| Delivery.NothingIsLost | Client App/packets.cpp:366-474 | each reliable packet but number 0 is still listed, or reached the peer, or an unreliable packet with its number did |
| Delivery.OnlyReliableIsDelivered | Client App/packets.cpp:366-474 | an end sending only reliable packets, at most 65536, has each but number 0 listed or delivered |
| Delivery.NumbersRefineCounters | Client App/packets.cpp:169-202 | in every run the local number is the count of reliable sends modulo 65536, and in the window the remote one is the highest counter accepted modulo 65536 |
| Delivery.RemoteNeverFalls | Client App/packets.cpp:452-454 | over any stretch of a run the remote number stands, within the window, for a counter that never falls |
| Delivery.ShortRunsStayInWindow | Client App/packets.cpp:169-172 | packets stay in the window in every run in which the peer numbers fewer than 32768 |
| Delivery.DuplicatesAreExact | Client App/packets.cpp:426-436 | in every run, however long, any packet under way is taken for a duplicate if and only if the counter of one of the last 18 reliable packets accepted wraps to the same number; with those fewer than 65536 away, if and only if it is the same counter |
| Delivery.DuplicatesAreTrue | Client App/packets.cpp:426-436 | while the peer has numbered at most 65536 packets, a reliable packet under way is taken for a duplicate if and only if it is one of the last 18 reliable packets accepted |
| Delivery.UnreliableIsOvertaken | Client App/packets.cpp:426-436 | while the peer has numbered fewer than 65536 packets, an unreliable packet under way is taken for a duplicate if and only if the reliable packet its sender sent next is one of the last 18 accepted |
| Delivery.SharesCounter | Client App/packets.cpp:376-396 | an unreliable packet has the counter of the reliable packet sent next after it, and of no other |
| Delivery.ListsMatchHistory | Client App/packets.cpp:376-466 | in every reachable state both lists are what the history says, and 19 reliable packets accepted in a row have distinct numbers |
| Delivery.ResendingIsBounded | Client App/packets.cpp:366-396 | in every run no packet is on the wire more than 5 times, and until a time-out resending is defined and keeps the list |
| Exchange.StampAcknowledges | Client App/packets.cpp:376-385 | a packet acknowledges, when it is stamped, the remote number and the listed numbers 1 to 16 behind it, and no others |
| Exchange.AnswerAcknowledges | Client App/packets.cpp:422-474 | the answer is unreliable, is sent last, and acknowledges the packet that asked, new or duplicate, if and only if it is at most 16 behind the remote number |
| Exchange.AnswersReadBack | Client App/packets.cpp:422-474 | in every run, processing a delivery puts exactly one packet under way if flag 2 is set, else none, and its datagram reads back as an empty acknowledgement with the numbers of its sender |
| Exchange.ExchangeClears | Client App/packets.cpp:422-474 | whatever happens while the answer is under way: delivered, it clears the number asked about, unless it is taken for a duplicate; then it changes no list |
| Exchange.AnswerIsDuplicate | Client App/packets.cpp:426-436 | when it is delivered, while its sender has numbered fewer than 65536 packets, the answer is taken for a duplicate if and only if the reliable packet sent next after it has overtaken it |
| Exchange.NothingOvertakes | Client App/packets.cpp:376-396 | no answer is overtaken before its sender sends another reliable packet |
| Exchange.ExchangeAlwaysClears | Client App/packets.cpp:422-474 | so in every run an answer that was not overtaken clears the number |
| Exchange.ExchangeSettles | Client App/packets.cpp:422-474 | from the delivery of the answer on, overtaken or not, the number is never listed again, unless a reliable packet that does not acknowledge it overtook the answer; up to 65536 numbers a side |
| Overtaking.OvertakerClears | Client App/packets.cpp:376-450 | a packet taken clears every number that was in reach of its sender when it was stamped |
| Overtaking.AnswerMayBeOvertaken | Client App/packets.cpp:426-436 | from any reachable exchange over either protocol, two more steps make the answer a duplicate; what overtook it has cleared the number |
| Overtaking.OvertakenMayStayListed | Client App/packets.cpp:376-436 | a run over either protocol in which question and answer both arrive and the number stays listed |
| Delivery.AnswerIsEmitted | Client App/packets.cpp:468-470 | processing emits one packet if an ack was asked for, else none |
| Delivery.Quiescence | Client App/packets.cpp:426-470 | without sends and duplication every run of deliveries and losses is bounded by what is under way |
| Guarantee.AfterReliableIsSafe | Client App/packets.cpp:366-474 | in every run a reliable packet sent right after a reliable one is listed or accepted |
| Guarantee.OtherwiseMayBeLost | Client App/packets.cpp:366-474 | for every other list of readable packets of one protocol ending in a reliable one, some run sends exactly these and loses the last |
| Guarantee.DeliveryGuarantee | Client App/packets.cpp:366-474 | among readable packets of either protocol, a reliable one is guaranteed if and only if the packet sent just before it was reliable |
| Counterexamples.FirstPacketMayBeLost | Client App/packets.cpp:265-278 | a run in which the first reliable packet is lost and dropped |
| Counterexamples.UnreliablePacketMayStandIn | Client App/packets.cpp:376-396 | a run in which an unreliable packet's number clears a reliable packet that never arrived |
| Counterexamples.UnreliablePacketMayBeDiscarded | Client App/packets.cpp:426-436 | a run in which an unreliable packet that never arrived before is discarded as a duplicate |
| NetLibCalls.After | N64 Library/netlib.c:153-306 | no sequence of calls, from any state, takes the cursor past 4096 |
| NetLibCalls.BeforeFirstStart | N64 Library/netlib.c:56-318 | until the first start the cursor is the length of the writes that fit, which lie at the beginning of the buffer: the type byte and everything behind the header are theirs, the fixed fields too except where the library was initialized after them, and the flags byte is theirs or the flags set since |
| NetLibCalls.AfterLastStart | N64 Library/netlib.c:139-318 | from the last start on, the payload is the writes that fitted, whole and in order, the flags are those set last, and the type stays |
| NetLibCalls.CompletedBytes | N64 Library/netlib.c:325-378 | every byte of a completed packet: fixed fields, type, flags, recipients, size and payload |
| NetLibCalls.ReadBack | N64 Library/netlib.c:56-378 | for every sequence of calls with a start, completed: the client recovers what was built if and only if the protocol name is intact and the version supported, and reads exactly that packet, numbered 0, if and only if no fixed header byte was left with another value |
| NetLibCalls.NeverStarted | N64 Library/netlib.c:56-378 | a packet completed without any start is read if and only if at least 18 bytes were written and name and version are in place: its type is the fifth byte written, its payload the bytes from the nineteenth on |
| NetLibCalls.InitializedAgrees | N64 Library/netlib.c:56-144 | with nothing written between an initialization and the first start, the client always reads what was built |
| NetLibCalls.EarlyWriteSpoilsHeader | N64 Library/netlib.c:153-165 | a run in which a byte written before the first start makes the client refuse the packet |
| NetLibWriter.Writer.Initialize | N64 Library/netlib.c:56-74 | fixed header fields are set, at any time, and the cursor stays where it is |
| NetLibWriter.Writer.Start | N64 Library/netlib.c:139-144 | type and flags are reset and the cursor goes behind the header; the fixed fields are not written |
| NetLibWriter.Writer.WriteBytes | N64 Library/netlib.c:293-306 | puts all the bytes at the cursor, wherever it is, or none |
| NetLibWriter.Writer.WriteByte | N64 Library/netlib.c:153-165 | the same for one byte |
| NetLibWriter.Writer.WriteWord | N64 Library/netlib.c:174-187 | the same for a word, most significant byte first |
| NetLibWriter.Writer.WriteDword | N64 Library/netlib.c:196-211 | the same for four bytes |
| NetLibWriter.Writer.WriteQword | N64 Library/netlib.c:220-239 | the same for eight bytes |
| NetLibWriter.Writer.SetPacketFlags | N64 Library/netlib.c:315-318 | replaces the flags and nothing else, before a start as after |
| NetLibWriter.Writer.CompletePacket | N64 Library/netlib.c:366-378 | writes recipients and 16-bit size, and sends the buffer up to the cursor, with or without a started packet |
| NetLibWriter.Writer.Broadcast | N64 Library/netlib.c:325-337 | the same, with the mask of a broadcast |
| NetLibWriter.BroadcastNamesOthers | N64 Library/netlib.c:325-337 | the recipients the client reads from a broadcast are all 32 players but the sender |
| NetLibWriter.Writer.Send | N64 Library/netlib.c:346-358 | the same, with the mask of one player |
| NetLibWriter.SendNamesOne | N64 Library/netlib.c:346-358 | the recipients the client reads are that player and no other |
| NetLibWriter.Writer.SendToServer | N64 Library/netlib.c:366-378 | the same, with mask 0 |
| NetLibWriter.ServerNamesNobody | N64 Library/netlib.c:366-378 | the client reads no recipient |
| Sha256.MacrosAreSigmas | Client App/sha256.cpp:21-29 | the shift macros are the rotations of FIPS 180-4 section 4.1.2 |
| Sha256Laws.ChSelects | Client App/sha256.cpp:24 | choice takes the second word's bits where the first has ones and the third's elsewhere |
| Sha256Laws.MajVotes | Client App/sha256.cpp:25 | majority keeps what two words agree on and takes the third where they differ |
| Sha256Laws.SigmasOfSomeWords | Client App/sha256.cpp:26-29 | the four sums on the highest bit, the lowest, and a dense word |
| Sha256Laws.ConstantsAreRoots | Client App/sha256.cpp:32-41 | the 64 constants are the first 32 bits of the fractions of the cube roots of the first 64 primes |
| Sha256Laws.InitialIsRoots | Client App/sha256.cpp:89-96 | the initial hash value, those of the square roots of the first eight |
| Sha256Laws.WordByValue | Client App/sha256.cpp:48-49 | a word is its four bytes as digits, most significant first |
| Sha256Laws.BytesByValue | Client App/sha256.cpp:148-157 | the bytes of a word are its digits, most significant first |
| Sha256Laws.PaddedByValue | Client App/sha256.cpp:120-143 | the padded message is the message, a one bit, zeros, and the number of bits in eight bytes |
| Sha256Example.DigestOfAbc | Client App/sha256.cpp:44-158 | the digest of "abc" is the published one, ba7816bf 8f01cfea 414140de 5dae2223 b00361a3 96177a9c b410ff61 f20015ad |
| Sha256.Context.Schedule | Client App/sha256.cpp:48-51 | the array holds the recursive message schedule |
| Sha256.Context.Roll | Client App/sha256.cpp:53-73 | rolling the working variables in place computes the 64 rounds |
| Sha256.Context.Transform | Client App/sha256.cpp:44-83 | one block is compressed as in FIPS 180-4 section 6.2.2 |
| Sha256.Context.Init | Client App/sha256.cpp:85-97 | the context of the empty message |
| Sha256.Context.Update | Client App/sha256.cpp:99-112 | the context of the message extended: complete blocks hashed and counted, the rest buffered, however the message was split |
| Sha256.Context.Final | Client App/sha256.cpp:114-158 | the FIPS 180-4 digest of everything hashed, in both padding branches |
| Sha256.BlockFilled | Client App/sha256.cpp:106-110 | filling the buffer compresses exactly the block that the message completes |
| Sha256.BitCount | Client App/sha256.cpp:135 | below 2^61 bytes the wrapping counter holds the length in bits |
| Sha256Spec.PaddedBlocks | Client App/sha256.cpp:120-143 | the padded message ends in one block when the length field fits behind the tail, else in two |
| Sha256Spec.ZeroBytesIsLeast | Client App/sha256.cpp:120-132 | the padding uses the least number of zeros |
| Sha256Spec.ChainOfPrefix | Client App/sha256.cpp:103-111 | the hash so far depends on the complete blocks only |
| Sha256Spec.LengthBytes | Client App/sha256.cpp:135-143 | shifting by whole bytes writes the length field |
| Sha256Spec.SerializedAt | Client App/sha256.cpp:148-157 | each digest byte is the named byte of its word |
| StreamBuf.BasicStreamBuf.constructor | Client App/Include/asio/basic_streambuf.hpp:131-141 | an empty buffer within the maximum size |
| StreamBuf.BasicStreamBuf.Size | Client App/Include/asio/basic_streambuf.hpp:158-161 | the length of the contents, never over the maximum |
| StreamBuf.BasicStreamBuf.Reserve | Client App/Include/asio/basic_streambuf.hpp:308-346 | shifting and resizing keep the contents; fails exactly when they and the room asked for exceed the maximum |
| StreamBuf.BasicStreamBuf.Prepare | Client App/Include/asio/basic_streambuf.hpp:214-219 | throws exactly when size and request exceed the maximum; the contents stay |
| StreamBuf.BasicStreamBuf.Commit | Client App/Include/asio/basic_streambuf.hpp:233-238 | appends the first characters of the put area, as many as there are |
| StreamBuf.BasicStreamBuf.Consume | Client App/Include/asio/basic_streambuf.hpp:247-254 | removes characters from the front, at most all, where the addresses do not wrap |
| StreamBuf.ConsumeIsClamped | Client App/Include/asio/basic_streambuf.hpp:251-253 | for every count, the get pointer moves by as many characters as there are if and only if fewer than 2^31 are to go and the sum of pointer and count does not wrap, or the count's low 32 bits are that number |
| StreamBuf.ConsumeAllMovesBack | Client App/Include/asio/basic_streambuf.hpp:251-253 | the largest count moves the get pointer back by one |
| StreamBuf.BasicStreamBuf.Underflow | Client App/Include/asio/basic_streambuf.hpp:263-274 | the first character, kept, or end of file exactly when empty |
| StreamBuf.BasicStreamBuf.Overflow | Client App/Include/asio/basic_streambuf.hpp:283-306 | appends one character; throws exactly when the contents have the maximum size |
| Registry.RunKeeps | Master Server/src/MasterServer.java:87-119 | every interleaving keeps everything listed, fetched and sent fresh for the last pruning pass completed |
| Registry.ListedServersAreFresh | Master Server/src/ClientConnectionThread.java:153-162 | every server sent in answer to LIST made contact no earlier than 10 minutes before the pruning pass run for that datagram |
| RegistryLaws.EntryAfterStep | Master Server/src/ClientConnectionThread.java:113-191 | a step lists a client as of now if its worker takes a REGISTER, or a HEARTBEAT while it is listed, and otherwise changes no entry but the one it removes; contacts are recorded exactly then |
| RegistryLaws.RemovalIsStaleOrRaced | Master Server/src/MasterServer.java:92-100 | in every run, whatever step takes a server out of the table is its own removal, after 10 minutes without a REGISTER or HEARTBEAT of it taken, unless one was taken after the pass began |
| RegistryLaws.ReceiptStartsPass | Master Server/src/MasterServer.java:87-93 | a datagram starts a pass over the whole table at the time it is received |
| RegistryLaws.WorkerAfterStep | Master Server/src/ClientConnectionThread.java:65-104 | a worker takes its datagrams in order, and ends with the first it can read, after the list if that was LIST |
| RegistryLaws.DatagramIsQueued | Master Server/src/MasterServer.java:102-119 | in every run each datagram is queued to one running worker of the client it came from, behind those before it, and to no other |
| RegistryLaws.OneWorkerEach | Master Server/src/MasterServer.java:102-116 | in every run no client has two running workers |
| RegistryLaws.SentAfterStep | Master Server/src/ClientConnectionThread.java:153-162 | a server is sent to the client whose worker fetched it, as the table had it when it was fetched, and nothing else is sent |
| RegistryLaws.ListIsComplete | Master Server/src/ClientConnectionThread.java:153-162 | in every run a list that ends has been sent every server that was in the table when it began and was not removed since |
| Registry.RefreshedServerMayBeRemoved | Master Server/src/MasterServer.java:92-100 | a run in which a server that registered again this very moment is removed |

## Left out

- Guarantee.DeliveryGuarantee: at most 65536 reliable packets on a side, because beyond that a number no longer names one packet; stated for packets of the left end, the two ends being alike. Runs carry only packets the peer's reader takes: versions and type strings it refuses or cuts short change nothing at the peer, or are another packet.
- Delivery.NumbersRefineCounters: the remote number only while accepted packets stay within 32767 of the highest, as they do while the peer numbers fewer than 32768, because outside that window the code cannot tell old from new.
- Exchange.ExchangeSettles: at most 65536 reliable packets on a side, for the same reason as the guarantee.
- Sha256.Context.Update: inputs under 2^32 bytes, because the loop index has 32 bits.
- Sha256.Context.Final: messages under 2^61 bytes, because the standard defines no digest beyond.
- StreamBuf.BasicStreamBuf.Reserve: nothing is promised after the length error, because the bytes have been moved by then.
- StreamBuf.BasicStreamBuf.Commit: moves of less than 2^31 characters, because the count is cast to a signed 32-bit integer.
- StreamBuf.BasicStreamBuf.Consume: the buffer after a count for which the addresses wrap, or 2^31 characters or more, where the get pointer may leave it; ConsumeIsClamped says for which counts.
- NetLibWriter.Writer.WriteBytes: sizes so near 2^32 that the size check itself would wrap; float and double writes copy 4 and 8 bytes and behave like the integer ones.
- NetLibWriter.Writer.Broadcast: what the mask bits mean to the server is not modelled; for a client number outside 1 to 32 (0 to 31 for Send) the mask is whatever the machine makes of the shift.
- PacketBytes.NetLibFromBytes: the buffer covers the declared lengths; shorter buffers, for both formats, are not modelled.
- Codec.S64RoundTrip: type strings of single-byte characters only; wide-character conversion is not modelled.
- UDPHandlers.UDPHandler.SendPacket: sizes the 16-bit size cannot hold; what later calls do once a packet from the receive list was sent, so that both lists share it and it is deleted twice, or after a listed packet timed out.
- Memory ownership: deleting packets, and sharing them between the receive list and callers.
- Sockets, resolvers, USB, clocks and `netlib_poll`, with the callbacks it runs before a completed packet is sent.
- The server browser's reuse of a handler after a time-out, and the Java `UDPHandler`, which answers every duplicate.
- The stream buffer's `capacity`, `data` and reading-size helper, and allocation failure.
- ROM download, ROM hashes, UPnP and the contents of REGISTER data; a datagram a worker cannot read is one kind of message.
- Registry steps are atomic for REGISTER and HEARTBEAT; a datagram queued to a worker that is already listing is lost, as in the source.
- User interface, formatting, debug printing and the rest of Asio.
