# Verification of the RTP media path and the RTSP control plane

A Dafny model of the streaming library and proofs about it. `dafny verify dfyconfig.toml` checks everything.

## What is modelled

* `octets.dfy`, `parity.dfy`: octets with their XOR, big-endian words, and the zero-padded XOR of octet strings.
* `fec_generator.dfy`, `fec_recovery.dfy`, `recovery_theorems.dfy`, `end_to_end.dfy`: the XOR forward error
  correction (sections 7.3, 7.4, 8.1, 8.2, 9.1 and 9.2 of RFC 5109) as the in-place accumulator it is, its second run
  inside reconstruction, and what the two give back.
* `rtp_packet.dfy`, `fec_wire.dfy`: the packet grammars and generators.
* `sequence_tracking.dfy`: the receiver's sequence numbers (Appendix A.1 of RFC 3550).
* `group_selection.dfy`, `receiver.dfy`, `sender.dfy`: de-jitter buffer, recovery point and packet sequencing.
* `accounting.dfy`: what every message does to the receiver, and what its statistics count over every run.
* `channel.dfy`, `delivery.dfy`: a sender and a receiver against each other, over a channel that loses single packets.
* `text.dfy`, `messages.dfy`, `folding.dfy`, `headers.dfy`, `transport.dfy`, `transport_text.dfy`,
  `transport_choice.dfy`: the RTSP text grammars and generators, header normalisation, and transport negotiation.
* `rtsp_session.dfy`, `rtsp_server.dfy`, `rtsp_client.dfy`: the session machines of both ends (Appendix A of RFC 2326).
* `requests.dfy`, `answers.dfy`: the texts of requests and answers, which status answers which request, and what both
  mean over runs.
* `exchange.dfy`, `matching.dfy`, `agreement.dfy`, `disorder.dfy`: one request and its answer through the printed texts,
  the two machines running against each other, and which orders of requests drive them apart.
* `wrappers.dfy`: a value or its absence.

Classes with mutable fields are classes here; each method is proved against a function of its old state, and the
promises are proved about those functions. Exceptions and out-of-range accesses are outcomes. Clocks, random numbers,
files, sockets and the simulated channel are parameters.

The payload offsets of generator and reconstruction are parameters, because the code's two do not match.

## Where the code does not do what its documentation or the RFCs ask

* The generator emits the level payload from media octet 10, reconstruction XORs survivors from octet 12. Section 8.2
  of RFC 5109 asks for 12. With 12 on both sides recovery is exact (`EndToEnd.EndToEndRecovery`). As shipped,
  `fec_reconstruction` rebuilds the lost octets iff the level payload is all zero (`EndToEnd.ShippedPairRebuildsIff`);
  after the cut at the last FF D9 the lost packet comes back iff level octets two apart are equal up to the recovered
  length and their differences behind it do not spell FF D9 (`EndToEnd.ShippedPairRestoresIff`), which holds for some
  groups with a level payload that is not zero (`EndToEnd.ShippedPairMayRestore`) and fails for two frames that differ
  in one octet (`EndToEnd.ShippedPairLosesPayload`). `Delivery.DeliveredInOrder` is about offset 12 on both sides.
* A rebuilt packet's sequence number and SSRC stay 0, and the recovered length is read into 32 bits from two octets, so
  it is never set. Padding is cut at the last FF D9 instead.
* A base of 0 means "unset" and `min` ignores wraparound; `Sending.CoverageIff` gives the exact condition, and
  `Receiving.MisnamedGroup` what recovery does otherwise: it takes packets of other numbers, and may count a correction.
* k = 1 makes reconstruction throw and k > 48 the generator; the assignment (Aufgabenstellung.md:30) asks for 2 to 20.
  Parity packets carry payload type 100; the assignment (Aufgabenstellung.md:32) names 127.
* Member selection checks no bounds. Whether a loss stays inside the buffer depends on its place in the group
  (`GroupSelection.SlotsInsideIff`); up to k = 21 every loss does in a full buffer, and with k = 22 the loss of the first
  member does not (`GroupSelection.OverlongGroupLeaves`).
* Only a gap of exactly one number is repaired; a wider one is counted as uncorrectable once, however many packets it
  holds, and a loss where the numbers wrap is neither repaired nor counted (`Accounting.TakenIsAccounted`).
* The receiver's first media packet and first parity packet are spent on probation, and a gap is decided on only once
  fifty packets are buffered: `Delivery.DeliveredInOrder` therefore starts with frame 1 and with losses from frame 31 on.
* A header extension's length is read after its four octets instead of from them. `DecodeHeader` does the same; round
  trips exclude the extension bit (`RtpPacket.ExtensionIsReadBehind`).
* A FEC level's payload copies everything up to the end of the packet; the protection length only moves the cursor
  (`FecWire.LevelsReadBack`).
* The FEC packets' own sequence number advances only for packets the simulated channel lets through, so a lost parity
  packet leaves no gap in it.
* An SSRC is printed without padding and parsed as exactly eight digits (`Transport.NegotiationAgreesIff`).
* The client's PLAY, PAUSE and TEARDOWN handlers ignore the status. `Matching.AnswerMatches` shows why this does no harm
  while requests are sent in order; `disorder.dfy` shows for each of the four pairs that are kept apart what goes wrong:
  PLAY or PAUSE behind TEARDOWN, TEARDOWN behind SETUP, PLAY behind SETUP.
* Header folding takes the line after the empty line of one request for a continuation, so a second request in the same
  buffer is swallowed (`Messages.PipelinedRequestFolds`). The agreement result hands the server one request at a time,
  which is all its buffer ever holds for a client that waits for every answer (`Agreement.LockStepNeverMerges`).
* A failed SETUP leaves the client without a further read and with the request outstanding for ever.

## Model

| member | source | states |
|---|---|---|
| `FecGeneration.FecGenerator.constructor` | src/streaming_lib/rtp_lib/src/rtp_endsystem.cpp:601-603 | a new generator has seen nothing, and its state reflects that for every k |
| `FecGeneration.FecGenerator.Generate` | src/streaming_lib/rtp_lib/src/rtp_endsystem.cpp:605-698 | over every run of calls: a packet under 12 octets throws and changes nothing; otherwise the call returns exactly `Expected` of all packets fed so far - a parity packet for the last k packets when k divides their number, nothing otherwise, and an out-of-range throw when k > 48 - and the mutable fields again reflect the whole history |
| `FecGeneration.FoldIn` | src/streaming_lib/rtp_lib/src/rtp_endsystem.cpp:620-651 | both length branches of the in-place fold give the octet-wise XOR of the zero-padded old bit string and the packet's protected string, of length max(old, packet + 2) |
| `FecGeneration.XorRange` | src/streaming_lib/rtp_lib/src/rtp_endsystem.cpp:625-644 | `std::transform` with XOR over a range changes exactly that range |
| `FecGeneration.BuildMask` | src/streaming_lib/rtp_lib/src/rtp_endsystem.cpp:681-691 | the mask loop sets exactly the leading k bits, and fails exactly when k > 48 |
| `FecGeneration.WriteOut` | src/streaming_lib/rtp_lib/src/rtp_endsystem.cpp:659-693 | the emitted octets: six low bits and L bit, base, recovery fields, protection length, short or long mask, level payload from the generator's offset |
| `FecGeneration.FoldedSnoc` | src/streaming_lib/rtp_lib/src/rtp_endsystem.cpp:638-651 | adding a packet to a group XORs its protected string into every column of the fold and grows it to the longest packet + 2 |
| `FecGeneration.FoldedLength` | src/streaming_lib/rtp_lib/src/rtp_endsystem.cpp:638-651 | the fold of a group is as long as its longest packet + 2 |
| `FecGeneration.FirstGroup` | src/streaming_lib/rtp_lib/src/rtp_endsystem.cpp:453-463 | a fresh generator is silent for k - 1 packets and then speaks for all k, for every k |
| `FecGeneration.EmittingStep` | src/streaming_lib/rtp_lib/src/rtp_endsystem.cpp:654-697 | the call that completes a group emits the group's parity packet and leaves the state of an empty group |
| `FecGeneration.ThrowingStep` | src/streaming_lib/rtp_lib/src/rtp_endsystem.cpp:684-686 | with k > 48 the completing call throws and keeps the grown bit string |
| `FecGeneration.CountingStep` | src/streaming_lib/rtp_lib/src/rtp_endsystem.cpp:654-656 | a call inside a group says nothing and keeps base and bit string of the group so far |
| `FecWire.ParityOnWire` | src/streaming_lib/rtp_lib/src/rtp_endsystem.cpp:659-693 | every octet of a parity packet is the XOR of one octet of all members, or of their lengths: P, X and CC bits with the L bit above them, M and PT, timestamps, lengths less 12, protection length, and from 14 or 18 on the members' octets from the generator's offset (section 7.3 of RFC 5109) |
| `Parity.ParityOfAt` | src/streaming_lib/rtp_lib/src/rtp_endsystem.cpp:620-651 | the reference: octet i of a parity string is the XOR of octet i of all members, zero-padded |
| `Parity.Cancellation` | src/streaming_lib/rtp_lib/src/rtp_endsystem.cpp:453-473 | the parity of a list and of the list without one member XOR to that member, in every column |
| `Parity.OrderIrrelevant` | src/streaming_lib/rtp_lib/src/rtp_endsystem.cpp:620-651 | permuted members have the same parity string |
| `RecoveryTheorems.FoldIgnoresOrder` | src/streaming_lib/rtp_lib/src/rtp_endsystem.cpp:620-651 | the bit string does not depend on the order in which a group was fed in |
| `RecoveryTheorems.RunsCancel` | src/streaming_lib/rtp_lib/src/rtp_endsystem.cpp:453-473 | the accumulators of a run over a group and of a fresh run over the survivors and 12 zero octets XOR, in every octet, to the missing packet's protected string |
| `EndToEnd.LevelPayloadsCancel` | src/streaming_lib/rtp_lib/src/rtp_endsystem.cpp:453-473 | as shipped: level payloads of the two runs XOR to the missing packet's octets from 10 on, zero-padded |
| `RecoveryTheorems.HeaderRecovery` | src/streaming_lib/rtp_lib/src/rtp_endsystem.cpp:471-490 | reconstruction reads back the lost packet's P, X, CC, M and PT bits, timestamp and (length - 12) mod 2^16, whatever the payload offsets |
| `RecoveryTheorems.FixedRecovery` | src/streaming_lib/rtp_lib/src/rtp_endsystem.cpp:474-500 | the rebuilt fixed header is the lost packet's with sequence number and SSRC zeroed |
| `RecoveryTheorems.PayloadColumn` | src/streaming_lib/rtp_lib/src/rtp_endsystem.cpp:488-496 | for any pair of emit and survivor offsets, which group columns make up each rebuilt payload octet |
| `RecoveryTheorems.ExactRecovery` | src/streaming_lib/rtp_lib/src/rtp_endsystem.cpp:448-515 | generator and reconstruction sharing offset 12: the rebuilt octets are the lost packet's with sequence number and SSRC zeroed, zero-padded to the group's longest packet |
| `RecoveryTheorems.ReconstructionSucceeds` | src/streaming_lib/rtp_lib/src/rtp_endsystem.cpp:448-515 | for 2 <= k <= 48 reconstruction meets no out-of-range access and returns the rejoined octets, for any offsets up to 12 with the survivor offset not below the emit offset |
| `EndToEnd.EndToEndRecovery` | src/streaming_lib/rtp_lib/src/rtp_endsystem.cpp:430-440 | main result: with offset 12 on both sides, any single lost packet of any group of 2..48, of any lengths, that parses and ends with FF D9 comes back in every field except sequence number and SSRC after cutting at the last FF D9 |
| `EndToEnd.RestoredIff` | src/streaming_lib/rtp_lib/src/rtp_endsystem.cpp:430-440 | rebuilt octets give the lost packet back, after the cut at the last FF D9, if and only if they start with it and hold no FF D9 behind it |
| `EndToEnd.ShippedPairRebuildsIff` | src/streaming_lib/rtp_lib/src/rtp_endsystem.cpp:448-515 | `fec_reconstruction` alone, with the shipped offsets (10 emitted, 12 reconstructed): its octets are the lost packet's, zero-padded, if and only if the received level payload is all zero |
| `EndToEnd.ShippedPairRestoresIff` | src/streaming_lib/rtp_lib/src/rtp_endsystem.cpp:430-515 | main result on the code as shipped, the cut included: a lost packet that parses and ends with FF D9 comes back if and only if, up to the recovered length, level octets two apart are equal and their differences behind it do not spell FF D9 - both visible to the receiver beforehand |
| `EndToEnd.ShippedPairMayRestore` | src/streaming_lib/rtp_lib/src/rtp_endsystem.cpp:430-440 | four concrete frames with a level payload that is not zero, and yet the lost one comes back: the cut hides the damage |
| `EndToEnd.ShippedPairLosesPayload` | src/streaming_lib/rtp_lib/src/rtp_endsystem.cpp:430-515 | two concrete frames for which the shipped pair puts something else in the buffer, the cut included |
| `FecRecovery.SecondRun` | src/streaming_lib/rtp_lib/src/rtp_endsystem.cpp:453-463 | the second generator is called once per survivor and once with 12 zero octets; one survivor too few makes `media_packets.at(0)` throw, more than 47 the mask |
| `FecRecovery.FoldSurvivors` | src/streaming_lib/rtp_lib/src/rtp_endsystem.cpp:488-496 | the survivor loop leaves in every octet the XOR of the level payload and all survivors from the survivor offset on |
| `FecRecovery.FecReconstruction` | src/streaming_lib/rtp_lib/src/rtp_endsystem.cpp:448-515 | the method with its loops computes `Reconstruct`, faults included |
| `RtpPacket.ParseHeader` | src/streaming_lib/rtp_lib/include/rtp_packet.hpp:95-147 | the header part of both grammars reads exactly `DecodeHeader`, partial results and extension quirk included |
| `RtpPacket.GenerateHeader` | src/streaming_lib/rtp_lib/include/rtp_packet.hpp:250-277 | header generator: success iff version 2 and matching CSRC count; on a mismatch the fixed octets are already written |
| `RtpPacket.ParseJpeg` | src/streaming_lib/rtp_lib/include/rtp_packet.hpp:95-173 | the JPEG grammar computes `DecodeJpeg` |
| `RtpPacket.GenerateJpeg` | src/streaming_lib/rtp_lib/include/rtp_packet.hpp:195-237 | the JPEG generator fails exactly for a wrong version or CSRC count; the sink then holds nothing or the fixed header, and otherwise `EncodeJpeg` |
| `RtpPacket.ParseAfterGenerate` | src/streaming_lib/rtp_lib/include/rtp_packet.hpp:95-237 | parsing a generated packet gives it back, for every packet with version 2, type 26, matching CSRC count up to 15, 24-bit fragment offset and no extension |
| `RtpPacket.GenerateAfterParse` | src/streaming_lib/rtp_lib/include/rtp_packet.hpp:95-237 | every accepted octet string without the extension bit is exactly what the generator writes for its parse |
| `RtpPacket.HeaderOnWire` | src/streaming_lib/rtp_lib/include/rtp_packet.hpp:250-277 | at which octet and bit every header field stands, for every header that can be written |
| `RtpPacket.JpegOnWire` | src/streaming_lib/rtp_lib/include/rtp_packet.hpp:195-237 | at which octet every field of a media packet stands, and where its data begins |
| `RtpPacket.ExtensionIsReadBehind` | src/streaming_lib/rtp_lib/include/rtp_packet.hpp:129-146 | with the extension bit four octets of any kind are taken first and the length word is read behind them; the header is refused iff fewer words follow than it says |
| `RtpPacket.ParseLevels` | src/streaming_lib/rtp_lib/include/rtp_packet.hpp:364-382 | the level loop ends on every input and computes `DecodeLevels` |
| `RtpPacket.ParseFec` | src/streaming_lib/rtp_lib/include/rtp_packet.hpp:291-385 | the FEC grammar computes `DecodeFec` |
| `FecWire.LevelsReadBack` | src/streaming_lib/rtp_lib/include/rtp_packet.hpp:364-382 | any number of levels is read back, each payload going on to the end of the packet over all levels behind its own |
| `FecWire.WireMaskNames` | src/streaming_lib/rtp_lib/src/rtp_endsystem.cpp:681-691 | short or long, mask bit 63-u as the receiver tests it is set iff u < k, for k up to 48 |
| `FecWire.FecWireRoundTrip` | src/streaming_lib/rtp_lib/include/rtp_packet.hpp:291-385 | a standard RTP header followed by any generator output parses to exactly one level with the generator's payload, protection length, mask and recovery fields |
| `RecoveryTheorems.ParsedFromRaw` | src/streaming_lib/rtp_lib/include/rtp_packet.hpp:291-385 | the same for a whole sent group's parity packet |
| `Sending.BaseOfConsecutive` | src/streaming_lib/rtp_lib/src/rtp_endsystem.cpp:614-618 | what the base is for consecutive numbers: the first one, unless it is 0 or the numbers wrap |
| `Sending.CoverageIff` | src/streaming_lib/rtp_lib/src/rtp_endsystem.cpp:614-691 | base and mask name exactly the group's numbers if and only if k = 1, or the group starts at 1 or above and does not wrap |
| `Sending.CadenceAndCoverage` | src/streaming_lib/rtp_lib/src/rtp_endsystem.cpp:605-698 | over every run of consecutively numbered packets and every 1 <= k <= 48: call n emits if and only if k divides n, and base and mask fields of what it emits name exactly the last k packets if and only if k = 1, or these start at 1 or above and do not wrap |
| `Sending.ProtectedExactlyOnce` | src/streaming_lib/rtp_lib/src/rtp_endsystem.cpp:654-657 | over every run and every k: each packet below the last multiple of k lies in the group of exactly one emitting call, and every later one in none |
| `Sending.Sender.constructor` | src/streaming_lib/rtp_lib/include/rtp_endsystem.hpp:49-52 | the sender starts with the given sequence numbers and an optional fresh generator |
| `Sending.Sender.SendNext` | src/streaming_lib/rtp_lib/src/rtp_endsystem.cpp:74-171 | every tick feeds the generator the numbered frame whether or not the channel drops it, sends exactly the non-dropped packets, and advances the FEC number only when a parity packet is sent |
| `Sending.FrameOnWire` | src/streaming_lib/rtp_lib/src/rtp_endsystem.cpp:84-118 | every octet of every frame's packet: 80 9A, the number, 3600 times the number, the SSRC, six zeros, 48 and 36, and the frame |
| `Sending.ParityHeaderOnWire` | src/streaming_lib/rtp_lib/src/rtp_endsystem.cpp:140-148 | the twelve octets in front of every parity packet: 80 64, number, timestamp, SSRC |
| `Sending.SenderGroupRecovers` | src/streaming_lib/rtp_lib/src/rtp_endsystem.cpp:136-163 | with offset 12, any frame of any k consecutive frames of a sender comes back from the other k - 1 and the parity packet |
| `SequenceTracking.SequenceUtility.constructor` | src/streaming_lib/rtp_lib/src/rtp_endsystem.cpp:535-539 | initial state |
| `SequenceTracking.SequenceUtility.InitSeq` | src/streaming_lib/rtp_lib/src/rtp_endsystem.cpp:541-549 | `init_seq` |
| `SequenceTracking.SequenceUtility.UpdateSeq` | src/streaming_lib/rtp_lib/src/rtp_endsystem.cpp:551-599 | `update_seq` computes `Step` and returns 1 exactly for an accepting verdict, in 16 and 32 bit arithmetic; `WindowInNumbers` and `FirstAccepted` say in numbers which these are |
| `SequenceTracking.RefinesCounter` | src/streaming_lib/rtp_lib/src/rtp_endsystem.cpp:572-598 | across any number of 16-bit wraps below 2^32: if every true number is at most 2999 ahead of and 99 behind the running maximum, cycles + maximum is that maximum |
| `SequenceTracking.WindowedAccepted` | src/streaming_lib/rtp_lib/src/rtp_endsystem.cpp:572-598 | every packet of such a run is accepted |
| `SequenceTracking.ReceivedCount` | src/streaming_lib/rtp_lib/src/rtp_endsystem.cpp:597 | and counted, in 32 bits |
| `SequenceTracking.RestartedState` | src/streaming_lib/rtp_lib/src/rtp_endsystem.cpp:541-549 | an `init_seq` inside `update_seq` leaves the state those runs start from |
| `SequenceTracking.LossAccounting` | src/streaming_lib/rtp_lib/include/rtp_endsystem.hpp:104-114 | over such a run without duplicates or numbers below the base, `lost()` is the number of true numbers not yet delivered, if and only if the 32-bit received count has not wrapped |
| `SequenceTracking.FirstAccepted` | src/streaming_lib/rtp_lib/src/rtp_endsystem.cpp:557-571 | a new source's first accepted packet is the first that equals its predecessor + 1 without wrap (both directions) |
| `SequenceTracking.RunHistory` | src/streaming_lib/rtp_lib/src/rtp_endsystem.cpp:541-599 | after any run `received` counts the 1-returns since the last `init_seq`, and `bad_seq` follows the last rejected packet since then |
| `SequenceTracking.ResyncCharacterised` | src/streaming_lib/rtp_lib/src/rtp_endsystem.cpp:581-593 | a valid source's packet 3000 to 65436 ahead (mod 2^16) is accepted iff it is one more (mod 2^16) than the last one rejected since the last `init_seq` |
| `SequenceTracking.WindowInNumbers` | src/streaming_lib/rtp_lib/src/rtp_endsystem.cpp:551-599 | after any run that validated the source, for every 16-bit distance d from the maximum: the packet is refused iff 3000 <= d <= 65436 and it is not one more than the last rejected one, and then only `bad_seq` changes; the whole state in every other case |
| `SequenceTracking.WindowIsExact` | src/streaming_lib/rtp_lib/src/rtp_endsystem.cpp:572-598 | the same over true numbers: after any windowed run with maximum m, v from m - 62536 to m + 65436 is accepted iff m - 99 <= v <= m + 2999; a refused one moves neither maximum nor counts |
| `GroupSelection.SearchCandidate` | src/streaming_lib/rtp_lib/src/rtp_endsystem.cpp:380-397 | the backward search finds the newest parity packet whose range and mask name the missing number, or throws on one without levels |
| `GroupSelection.SelectGroup` | src/streaming_lib/rtp_lib/src/rtp_endsystem.cpp:405-429 | the two member loops compute `SelectUpTo` |
| `GroupSelection.SlotsInsideIff` | src/streaming_lib/rtp_lib/src/rtp_endsystem.cpp:407-420 | for every group size, loss and buffer of 20 or more: all slots looked at lie in the buffer if and only if the loss is the first member or at most size - 20 members precede it, and at most 21 members start with it |
| `GroupSelection.AllSlotsInsideIff` | src/streaming_lib/rtp_lib/src/rtp_endsystem.cpp:407-420 | in a full buffer that holds for every loss of a group if and only if k <= 21 |
| `GroupSelection.SelectionIsExact` | src/streaming_lib/rtp_lib/src/rtp_endsystem.cpp:405-429 | for every buffer, group size and loss: there is a choice if and only if all other members sit in their places, and then it carries exactly the group's numbers without the missing one, in order; the buffer is left if and only if the first member out of place lies outside of it |
| `GroupSelection.InsideNeverLeaves` | src/streaming_lib/rtp_lib/src/rtp_endsystem.cpp:405-429 | a loss whose slots all lie inside is decided without leaving the buffer |
| `GroupSelection.OverlongGroupLeaves` | src/streaming_lib/rtp_lib/src/rtp_endsystem.cpp:417-429 | a full buffer of consecutive packets around the lost first of 22: selection leaves the buffer |
| `GroupSelection.NewestDecides` | src/streaming_lib/rtp_lib/src/rtp_endsystem.cpp:380-397 | the search ends at the newest parity packet in range that names the number or has no level, and throws in the latter case; it finds nothing iff there is none |
| `GroupSelection.GivenUpIff` | src/streaming_lib/rtp_lib/src/rtp_endsystem.cpp:376-429 | a loss is given up iff no parity packet covers it, or the newest that does has another member out of its place inside the buffer, before any outside of it; a member outside before that is an access out of bounds |
| `GroupSelection.RecoverPacketByFec` | src/streaming_lib/rtp_lib/src/rtp_endsystem.cpp:376-446 | the method computes `Recover`: candidate, members, reconstruction, trimming, or which exception |
| `Receiving.GapIsRepaired` | src/streaming_lib/rtp_lib/src/rtp_endsystem.cpp:376-446 | a full buffer with a one-packet gap at the decision point, its parity packet and the other members in place gives back the lost packet (offset 12) |
| `Receiving.MisnamedGroup` | src/streaming_lib/rtp_lib/src/rtp_endsystem.cpp:376-446 | a group of two or more that starts at 0 or wraps: its first number is never looked up in its own parity packet, and any other number either finds a member out of place or is rebuilt from numbers without that first one - never counted as uncorrectable once there is a choice |
| `Receiving.RecoveredBetweenNeighbours` | src/streaming_lib/rtp_lib/src/rtp_endsystem.cpp:442-445 | a recovered packet stands at insertion between its two sequence neighbours |
| `Receiving.Receiver.constructor` | src/streaming_lib/rtp_lib/include/rtp_endsystem.hpp:148-150 | an empty receiver, which satisfies the conservation invariant |
| `Receiving.Receiver.HandleJpeg` | src/streaming_lib/rtp_lib/src/rtp_endsystem.cpp:272-325 | `handle_new_jpeg_packet`: the whole new state, the invariant, and which packets count as accepted; `Accounting` says in numbers what that state is |
| `Receiving.Receiver.HandleFec` | src/streaming_lib/rtp_lib/src/rtp_endsystem.cpp:327-356 | `handle_new_fec_packet`: the whole new state; at most 50 parity packets |
| `Receiving.Receiver.HandleMessage` | src/streaming_lib/rtp_lib/src/rtp_endsystem.cpp:250-261 | a message is offered to the JPEG grammar and, only if refused there, to the FEC grammar |
| `Receiving.Receiver.CheckNumber` | src/streaming_lib/rtp_lib/src/rtp_endsystem.cpp:290-297 | the first packet creates the sequence utility; the verdict is its own |
| `Receiving.Receiver.Buffer` | src/streaming_lib/rtp_lib/src/rtp_endsystem.cpp:299-325 | displayed, frame buffer and incoming buffer without recovered packets stay the accepted packets in arrival order; incoming size stays min(accepted, 49) + corrected + failed recoveries; the new state is `AfterPacket`, whose counts `Accounting.TakenIsAccounted` pins |
| `Receiving.Receiver.Decide` | src/streaming_lib/rtp_lib/src/rtp_endsystem.cpp:305-324 | the same for the decision 20 packets back and the release of the oldest packet |
| `Receiving.Receiver.DisplayNext` | src/streaming_lib/rtp_lib/src/rtp_endsystem.cpp:358-374 | displaying moves the oldest frame out and leaves the stream as it was |
| `Accounting.TakenIsAccounted` | src/streaming_lib/rtp_lib/src/rtp_endsystem.cpp:299-325 | a packet that is taken: below fifty it is only kept; from then on a difference of 3 or more twenty places from the end raises `uncorrectable` by one, of 2 exactly one of corrected, uncorrectable and failed recoveries, each with what it does to the buffers, and any other difference none |
| `Accounting.CountsAddUp` | src/streaming_lib/rtp_lib/src/rtp_endsystem.cpp:305-320 | over every run of messages: corrected + uncorrectable + failed recoveries is the number of decisions on a difference of 2 or more, and all of 3 or more are among the uncorrectable |
| `Accounting.RefusedMessages` | src/streaming_lib/rtp_lib/src/rtp_endsystem.cpp:272-356 | every message that is not taken, by grammar, payload type 26 or 100, SSRC, length of the data and number: how it is refused, and that it changes no buffer and no count |
| `Accounting.ParityIsKept` | src/streaming_lib/rtp_lib/src/rtp_endsystem.cpp:347-353 | a parity packet that is taken is kept, the oldest of more than fifty dropped |
| `Accounting.LastFiftyKept` | src/streaming_lib/rtp_lib/src/rtp_endsystem.cpp:327-356 | over every run of messages the receiver keeps the last fifty of the parity packets it took, in order |
| `Channel.FindsGroup` | src/streaming_lib/rtp_lib/src/rtp_endsystem.cpp:380-397 | in a receiver that follows a sender's parity packets, a number of any group but the first finds that group's packet, unless fifty newer ones have come in |
| `Delivery.LossRepaired` | src/streaming_lib/rtp_lib/src/rtp_endsystem.cpp:300-446 | twenty arrivals behind its gap, a lost packet of a sent group of 2 to 20 comes back (offset 12 on both sides) |
| `Delivery.FrameReached` | src/streaming_lib/rtp_lib/src/rtp_endsystem.cpp:74-446 | one frame sent, its packet lost or not, its group's parity packet sent if it is complete, and all of it received: the receiver's buffers again hold the whole stream in order, every decided loss repaired |
| `Delivery.DeliveredInOrder` | src/streaming_lib/rtp_lib/src/rtp_endsystem.cpp:74-446 | main result: over every transmission of a sender with k from 2 to 20, losing at most one packet per group, no two neighbours, and none of the first 31: the receiver gives nothing up, repairs every loss with twenty arrivals behind it, and hands on the sent frames 1, 2, 3 and so on in order and without a gap, all but the last fifty arrivals, each with its marker, width 48, height 36 and timestamp, lost ones with cleared number and SSRC |
| `Delivery.SentIs` | src/streaming_lib/rtp_lib/src/rtp_endsystem.cpp:74-171 | what one tick of the sender puts on the channel: the frame's packet unless dropped, and the parity packet of the group it completes |
| `Delivery.Relay` | src/streaming_lib/rtp_lib/src/rtp_endsystem.cpp:74-446 | the sender and the receiver objects run against each other over such a channel end in just that state |
| `HeaderNormalisation.NormalizeHeaders` | src/streaming_lib/rtsp_lib/src/rtsp_headers.cpp:5-17 | the loop computes, per lower-cased name, the comma-join in order of exactly the values carrying it |
| `HeaderNormalisation.SameValuesSameResult` | src/streaming_lib/rtsp_lib/src/rtsp_headers.cpp:5-17 | only the order of values within one name matters |
| `HeaderNormalisation.ReorderingIsInvisible` | src/streaming_lib/rtsp_lib/src/rtsp_headers.cpp:5-17 | exchanging neighbours of different names anywhere changes nothing (section 4.2 of RFC 2616) |
| `HeaderNormalisation.NamedHasValues` | src/streaming_lib/rtsp_lib/src/rtsp_headers.cpp:7-14 | a name is mapped iff some header carries it |
| `Requests.CaseIsIgnored` | src/streaming_lib/rtsp_lib/src/rtsp_headers.cpp:7-9 | two names share a slot iff they differ at most in the case of English letters |
| `Requests.NormalisedAlike` | src/streaming_lib/rtsp_lib/src/rtsp_headers.cpp:5-17 | headers whose names differ in case only are normalised alike |
| `Messages.RequestRoundTrip` | src/streaming_lib/rtsp_lib/include/rtsp_message.hpp:112-183 | a printed request followed by any text parses to itself leaving that text, iff it has no headers or the text cannot be read as a folded header line |
| `Messages.ResponseRoundTrip` | src/streaming_lib/rtsp_lib/include/rtsp_message.hpp:84-172 | the same for responses with a three-digit status |
| `Messages.EndIsNoFold` | src/streaming_lib/rtsp_lib/include/rtsp_message.hpp:75-81 | at the end of the input folding never fires |
| `Messages.PipelinedRequestFolds` | src/streaming_lib/rtsp_lib/include/rtsp_message.hpp:75-81 | a request directly behind another is folded into its last header, so the first does not come back |
| `Messages.BlankValueIsUnreadable` | src/streaming_lib/rtsp_lib/include/rtsp_message.hpp:68-73 | a request with any printable headers followed by one without a value does not parse at all |
| `Messages.FilledByParse` | src/streaming_lib/rtsp_lib/src/rtsp_client.cpp:183-188 | what the client goes on with after a parse that went through is just what the parse returned |
| `Folding.CutShortIsFilled` | src/streaming_lib/rtsp_lib/src/rtsp_client.cpp:183-190 | an answer whose empty line is missing fails to parse, and yet its status and all its headers have been filled in |
| `Folding.HeaderUnfolds` | src/streaming_lib/rtsp_lib/include/rtsp_message.hpp:61-82 | a header folded over any number of lines is read as the header with its lines joined (section 4.2 of RFC 2616) |
| `Folding.QuotesComeOff` | src/streaming_lib/rtsp_lib/include/rtsp_message.hpp:51-79 | the quotes around a value are dropped, white space inside them is kept |
| `Folding.LooseRequest` | src/streaming_lib/rtsp_lib/include/rtsp_message.hpp:124-134 | any white space may stand between the parts of a start line |
| `Requests.CharactersByCode` | src/streaming_lib/rtsp_lib/include/rtsp_message.hpp:51-59 | white space, control and token characters by their codes (section 15.1 of RFC 2326) |
| `Transport.GetAcceptableTransport` | src/streaming_lib/rtsp_lib/src/rtsp_methods.cpp:19-103 | the push-back algorithm computes `Choose`, and fails iff no specification is RTP/AVP, over UDP if a lower transport is given, and `unicast` first |
| `Transport.NegotiationAgreesIff` | src/streaming_lib/rtsp_lib/src/rtsp_client.cpp:308-369 | printing the server's choice, parsing it and running the client's extraction gives the client port and SSRC of the server's sender iff the SSRC is at least 0x10000000; otherwise no SSRC is found |
| `Transport.ClientRequestParses` | src/streaming_lib/rtsp_lib/include/rtsp_headers.hpp:108-173 | the transport the client asks for parses to the end of the header |
| `Transport.WholeNegotiation` | src/streaming_lib/rtsp_lib/src/rtsp_methods.cpp:182-254 | request, choice, answer and extraction together, for every port and SSRC |
| `TransportChoice.ChosenIff` | src/streaming_lib/rtsp_lib/src/rtsp_methods.cpp:25-36 | for every list of specifications: there is a choice iff one has protocol RTP, profile AVP, no lower transport or UDP, and `unicast` as its first parameter |
| `TransportChoice.ChosenFrom` | src/streaming_lib/rtsp_lib/src/rtsp_methods.cpp:38-103 | what is chosen from the first of these: the lower end of its first client port or the random port, its first SSRC that is not zero or the random one, its first server port as it stands or the client port plus two in 16 bits |
| `TransportChoice.ReadFrom` | src/streaming_lib/rtsp_lib/src/rtsp_client.cpp:320-366 | what the client reads of any header: the lower end of the first client or general port and the first SSRC of the first such specification; a missing port comes before a missing SSRC |
| `TransportChoice.ReadNothing` | src/streaming_lib/rtsp_lib/src/rtsp_client.cpp:308-332 | the client refuses a header iff it does not parse or offers no such specification |
| `TransportChoice.PhraseIsChosen` | src/streaming_lib/rtsp_lib/src/rtsp_methods.cpp:19-103 | the phrase `RTP/AVP;unicast;client_port=3456-3457;mode="PLAY";ssrc=DEADBEEF` is read to its end and chosen, with server port 3458 |
| `TransportText.SpecRoundTrip` | src/streaming_lib/rtsp_lib/include/rtsp_headers.hpp:108-282 | any specification - time to live, ports and port ranges, SSRC, mode, bare tokens - printed and parsed comes back iff every SSRC in it has eight digits |
| `TransportText.TransportRoundTrip` | src/streaming_lib/rtsp_lib/include/rtsp_headers.hpp:178-307 | so does any list of them, to the end of the header |
| `RtspServer.RtspServerState.constructor` | src/streaming_lib/rtsp_lib/src/rtsp_server_internals.cpp:14-26 | no sessions |
| `RtspServer.RtspServerState.HandleIncomingRequest` | src/streaming_lib/rtsp_lib/src/rtsp_server_internals.cpp:28-99 | every branch: the answer and the whole new session map and host index; `Answers` says in status codes which answer that is |
| `RtspServer.RtspServerState.HandleSetup` | src/streaming_lib/rtsp_lib/src/rtsp_server_internals.cpp:57-66 | SETUP inserts session and host entry before anything can fail |
| `RtspServer.RtspServerState.HandleOnSession` | src/streaming_lib/rtsp_lib/src/rtsp_server_internals.cpp:70-84 | requests on a stored session, TEARDOWN's removal included; `Answers.StoredSessionAnswers` says in status codes how they are answered |
| `RtspServer.RtspServerState.HandleTimeoutOfHost` | src/streaming_lib/rtsp_lib/src/rtsp_server_internals.cpp:109-121 | the erase loop ends and removes exactly the sessions registered for that host and all its entries |
| `RtspServer.HandleKeepsInv` | src/streaming_lib/rtsp_lib/src/rtsp_server_internals.cpp:28-99 | every request keeps: a session is `init` iff it has no sender and is registered under exactly one host |
| `RtspServer.TimeoutKeepsInv` | src/streaming_lib/rtsp_lib/src/rtsp_server_internals.cpp:109-121 | a timeout keeps that, removes exactly that host's sessions and changes no other |
| `RtspServer.RunKeepsInv` | src/streaming_lib/rtsp_lib/src/rtsp_server_internals.cpp:28-121 | the invariant over all runs of requests and timeouts with fresh identifiers |
| `RtspServer.OthersUntouched` | src/streaming_lib/rtsp_lib/src/rtsp_server_internals.cpp:56-85 | a request changes no session but the one it names and the one it creates |
| `RtspServer.SenderIsFixed` | src/streaming_lib/rtsp_lib/src/rtsp_methods.cpp:268-300 | no request changes a stored session's RTP sender |
| `RtspServer.RefusedSetupIsFinal` | src/streaming_lib/rtsp_lib/src/rtsp_server_internals.cpp:53-66 | a session whose SETUP was refused never leaves `init`, over every run |
| `Answers.StoredSessionAnswers` | src/streaming_lib/rtsp_lib/src/rtsp_methods.cpp:259-300 | on every stored session: PLAY is answered 200 iff it is not in `init`, PAUSE iff it is playing, TEARDOWN always, and otherwise 455; with the state each leaves |
| `Answers.OtherAnswers` | src/streaming_lib/rtsp_lib/src/rtsp_server_internals.cpp:39-97 | every other answer but those of `setup`, for every request: 400 without CSeq, 200 to OPTIONS, 501, 459, 400 without a session, 454, 501; none changes the server |
| `Answers.RequireAnswers` | src/streaming_lib/rtsp_lib/src/rtsp_methods.cpp:133-180 | the Require header as any list of tags joined by commas: 400 for what is no tag, 551 with exactly the unsupported tags, each as often as required, 400 for a missing or unread option header |
| `Answers.TransportAnswers` | src/streaming_lib/rtsp_lib/src/rtsp_methods.cpp:199-257 | every further end of SETUP: 461 iff nothing is chosen, 404, an exception for a taken port or a requested range of server ports, and 200 with the printed choice and a ready session with the chosen ports and SSRC |
| `Answers.CollidingSetupAnswers` | src/streaming_lib/rtsp_lib/src/rtsp_methods.cpp:206-211 | an identifier generated again while its session is set up: 455, and that session stays as it was |
| `Answers.PaddingIsSkipped` | src/streaming_lib/rtsp_lib/src/rtsp_server.cpp:73-78 | white space in front of a request, and around a Transport header, is passed over |
| `Answers.UnreadTransportAnswers` | src/streaming_lib/rtsp_lib/src/rtsp_methods.cpp:184-198 | a Transport header that is not read to its end: 400, naming where reading stopped |
| `Answers.PlayIsAnswered` | src/streaming_lib/rtsp_lib/src/rtsp_methods.cpp:268-287 | over every run: PLAY is answered 200 iff the session has an RTP sender, and iff it then plays |
| `Answers.PauseIsAnswered` | src/streaming_lib/rtsp_lib/src/rtsp_methods.cpp:289-300 | whatever goes on elsewhere in between: PAUSE is answered 200 iff the last PLAY or PAUSE on that session was a PLAY answered 200 |
| `Answers.AnswerOnWire` | src/streaming_lib/rtsp_lib/include/rtsp_message.hpp:161-172 | an answer on a session, octet for octet |
| `Answers.UnreadableAnswers` | src/streaming_lib/rtsp_lib/src/rtsp_server.cpp:79-86 | what is no request is answered `RTSP/1.0 400 Bad Request` and changes nothing |
| `ControlClient.RtspClient.constructor` | src/streaming_lib/rtsp_lib/src/rtsp_client.cpp:15-43 | a new client session |
| `ControlClient.RtspClient.SendRequest` | src/streaming_lib/rtsp_lib/src/rtsp_client.cpp:146-163 | state guards, CSeq first among the headers, the outstanding table keyed by the CSeq in 32 bits |
| `ControlClient.RtspClient.HandleSetupAnswer` | src/streaming_lib/rtsp_lib/src/rtsp_client.cpp:265-294 | the SETUP handler: identifier set before the transport is read, state only after the receiver exists |
| `ControlClient.RtspClient.HeaderRead` | src/streaming_lib/rtsp_lib/src/rtsp_client.cpp:165-217 | `header_read`: it goes on with whatever status and headers a parse filled in, even a failed one; handlers by CSeq, nothing erased and no further read after an exception |
| `Requests.AskedIff` | src/streaming_lib/rtsp_lib/src/rtsp_client.cpp:296-436 | SETUP is sent in `init` only, PLAY in `ready` or `playing`, PAUSE in `playing`, the rest always; the number goes up by one |
| `Requests.RequestOnWire` | src/streaming_lib/rtsp_lib/src/rtsp_client.cpp:146-157 | every character of each of the six requests, for every URL, number, session, port and option text |
| `Requests.SetupIsAdopted` | src/streaming_lib/rtsp_lib/src/rtsp_client.cpp:265-294 | the SETUP answer is taken iff its status is 200 to 299, it names a session and a readable transport, and the port is free; what changes in each case |
| `Requests.AnswerIsHandled` | src/streaming_lib/rtsp_lib/src/rtsp_client.cpp:192-213 | any other answer: without a number the client stops, below 200 or unknown nothing happens, PLAY, PAUSE and TEARDOWN lead to `playing`, `ready` and `init` whatever the status |
| `Requests.NumberIsRead` | src/streaming_lib/rtsp_lib/src/rtsp_client.cpp:191-197 | the number of an answer is what its header starts with, and 0 if that is no number or does not fit 32 bits |
| `Exchange.ServedText` | src/streaming_lib/rtsp_lib/src/rtsp_server.cpp:60-94 | what the server does with the text of a client's request is what it does with the request itself; a request naming no session value is unreadable |
| `Exchange.SessionDispatch` | src/streaming_lib/rtsp_lib/src/rtsp_server_internals.cpp:70-84 | a PLAY, PAUSE or TEARDOWN of the client reaches exactly the session it names, or 454 |
| `Matching.SetupDispatch` | src/streaming_lib/rtsp_lib/src/rtsp_server_internals.cpp:56-65 | a SETUP of the client reaches `setup` with a fresh session and the client's own transport |
| `Exchange.OptionsChecked` | src/streaming_lib/rtsp_lib/src/rtsp_methods.cpp:133-180 | the `Require` header and option header of a client's SETUP: its own tag is read and supported, and the request is refused exactly when the option grammar stops early, naming where |
| `Exchange.SetupOutcome` | src/streaming_lib/rtsp_lib/src/rtsp_methods.cpp:126-257 | the four ends of a client's SETUP: option text not read to its end, resource missing, exception, accepted with the chosen transport |
| `Matching.AnswerMatches` | src/streaming_lib/rtsp_lib/src/rtsp_client.cpp:371-436 | serving a PLAY, PAUSE, TEARDOWN, OPTIONS or DESCRIBE and handling its answer keep client and server agreeing, although the client ignores the status |
| `Matching.SetupMatches` | src/streaming_lib/rtsp_lib/src/rtsp_client.cpp:265-297 | a served SETUP lets the client go on exactly when options, resource, port and SSRC all allow it, and then both ends agree |
| `Agreement.StepKeeps` | src/streaming_lib/rtsp_lib/src/rtsp_client.cpp:146-217 | every step - send, serve, deliver, other clients' requests, other hosts' timeouts - keeps the invariant that handling all answers on their way leads the client to the server's state |
| `Agreement.AgreementAtQuiescence` | src/streaming_lib/rtsp_lib/src/rtsp_client.cpp:146-436 | main result: over printed texts in two FIFO queues, in every interleaving in which PLAY is sent behind no unanswered SETUP or TEARDOWN, PAUSE behind no unanswered TEARDOWN and TEARDOWN behind no unanswered SETUP, whenever no request is outstanding the client's state is its session's state, and its receiver has the port and SSRC of that session's sender |
| `Agreement.LockStepNeverMerges` | src/streaming_lib/rtsp_lib/src/rtsp_server.cpp:67-77 | a client that waits for every answer before it asks again never has two requests in the server's stream buffer, over every run |
| `Disorder.BehindTeardownDisagrees` | src/streaming_lib/rtsp_lib/src/rtsp_client.cpp:377-427 | why not behind TEARDOWN: from any quiet client in a session, TEARDOWN and then PLAY or PAUSE end with a client in a session the server no longer has |
| `Disorder.TeardownBehindSetupDisagrees` | src/streaming_lib/rtsp_lib/src/rtsp_client.cpp:265-427 | why TEARDOWN not behind SETUP: it names the session before it, and the client forgets the one the server has just set up |
| `Disorder.PlayBehindSetupDisagrees` | src/streaming_lib/rtsp_lib/src/rtsp_client.cpp:265-400 | why PLAY not behind SETUP: it starts one session, and the client takes the answer for the other |
| `Agreement.OwnTimeoutAgreesIff` | src/streaming_lib/rtsp_lib/src/rtsp_server_internals.cpp:109-121 | after a timeout of the client's own host both agree iff the client was not set up |

## Left out

- Boost.Asio sockets, strands, timers, threads and connection set-up: messages, ticks and timeouts are atomic steps, queues are FIFO.
- `start`, `stop` and cancellation of the sender's timer: their effect depends on timer semantics that are not in the repository.
- File reading, resource paths and `get_jpeg_stream`: a frame or its absence, and a found resource, are parameters.
- Random numbers and UUIDs: parameters, with fresh identifiers where a result needs them.
- The statistics handler, which reads the JPEG sequence utility even before it exists when a handler is set: not modelled.
- The floating-point text of the option header: how many of its characters the option grammar reads is a parameter (`World.optionRead`), and the channel parameters it yields are not used.
- `custom_fec_packet_generator`: it writes only the RTP header.
- `process_url`, the pimpl wrappers, `streaming_lib.cpp`, the GUI and the build files.
- Jitter and interval fields of the sequence utility: nothing reads them.
- ControlClient.RtspClient.HeaderRead: what a failed Spirit alternative leaves in a string, such as an unclosed quoted string in a header value, is not modelled.
- Agreement.AgreementAtQuiescence: for a client that does not wait for its answers it does not model two requests in one read of the server, where what the second one leaves in the stream buffer depends on iterator look-ahead inside Boost.Spirit; nor a client beyond its 2^32nd request, whose key in the outstanding table wraps.
- Overflow of RTSP version numbers: numbers in messages are unbounded.
- `corrected_` and `uncorrectable_` are unbounded counters here.
- The host index's order of different hosts: entries are kept in the order of insertion.
- Delivery.DeliveredInOrder: no reordering or duplication, no lost parity packet, numbers that do not wrap, and first numbers the receiver's probation accepts.
- What a reconstruction reads beyond a vector's end: it is the outcome `Fault`, without a value.
