# nrf-ble in Dafny

A model of the protocol logic of nrf-ble, a Bluetooth Low Energy stack for the nRF52, with proofs about it.
The files follow the layers of the stack, from the bits on air upwards.

| layer | files |
|---|---|
| CRC-24, whitening and the virtual radio | `Bytes`, `Crc`, `CrcAlgebra`, `CrcDetection`, `CrcRefinement`, `Whiten`, `Keystream`, `WhitenSequence`, `CrcPowers`, `ChannelResidue`, `Radio` |
| advertising: PDU codec, advertising data, the whole path from entries to a scanner | `AdvPdu`, `AdvData`, `Air`, `Loopback` |
| data channel: PDU codec, L2CAP fragmenter and reassembler, credit-based channel | `DataPdu`, `Link`, `Conn`, `Handlers`, `Negotiation`, `Fragmentation`, `AttDelivery`, `CocSegmentation`, `CocDelivery`, `Ledger`, `Credits` |
| host controller interface | `Hci` |
| intervals, connection anchor, channel hopping | `Timing`, `Hopping` |
| bond storage | `Bonds` |
| shared | `Wrappers`, `Octets` |

Code that updates buffers or fields in place is modelled by methods and classes over arrays. Each method is
proved to compute a function of its inputs and the old state, and the theorems are about those functions,
over every input, every error pattern, every stream and every run. A few results as a reader would use them:

- *Radio.* A received packet is accepted exactly when the bits flipped on air, taken alone, leave a zero CRC
  residue (`Radio.RejectedIffResidue`). It follows that every burst inside 24 bits, every odd number of
  flipped bits and every pair of flipped bits is rejected, for every PDU and every channel. A packet heard on
  another channel is never accepted, whatever its content and length (`Radio.ReceivedOnlyOnItsChannel`). That
  proof puts the whitening LFSR in Galois form, where it multiplies by x modulo x^7 + x^3 + 1, scales the CRC
  register by that polynomial, and so reduces acceptance to x^(8n) * A = B modulo the CRC polynomial with A
  and B of degree below seven; `CrcPowers` excludes this for every packet length.
- *L2CAP.* A message queued by `queue_att` while nothing is pending reaches the peer's ATT handler, once and at
  the last fragment, from every receiver state and with every fragment size the buffer takes, exactly when
  the transmit channel is still ATT (`AttDelivery.AttArrivesIffChannelIsAtt`). With a fragment size of four or
  less the fragmenter never ends. A peer that holds nothing of an earlier SDU reports an SDU exactly when it
  fits one packet, and a peer that does takes it for more of the earlier one (`CocDelivery.SduArrivesIffItFits`).
- *Robustness.* For every state and every byte string received as a packet, no buffer is overrun, and the
  packets that the data path, the ATT handler and the LL control handler read outside of are characterised
  exactly (`Link.ReceiveKeepsValid`).
- *Credits.* At one end of an open channel, with any peer, any fragments and SDUs of any length, credits left
  and sends accepted add up to credits at the start and credits gained, so sends never exceed grants
  (`Ledger.SendsWithinGrants`). Between two ends that run this code, from the handshake on and over every
  run of SDUs that fit one packet, the credits held, queued and on air are the eight granted less one for each event that queued over
  a pending message; and the SDUs seen, on air and queued are the SDUs sent, in order.
- *Codecs.* Each encoder and decoder pair is shown to be inverse with the exact condition under which it is.
- *Time.* Schedules never drift. Over any number of events with a connection update pending, the anchors are
  exact before the instant in the old interval and from it on in the new one, although the update is applied
  again whenever the 16-bit event counter comes round.
- *Bonds.* A flash page always loads as the cache that wrote it, so a store that is reopened at any time is
  the RAM store, and both are the map from the first eight peers to their last bond.

`dafny verify dfyconfig.toml` checks the project.

## Where the code does less than it says

Each line is proved by the member named; the model keeps the code's behaviour.

- The response that opens a credit-based channel stores the granted credits as the peer's own, so the side
  that opened the channel has none. As long as its peer runs this code, sends only SDUs that fit one packet
  and opens no channel itself, it can never send (`Credits.InitiatorNeverSends`). In general it can send
  exactly after a fragment that is taken for a request or a flow control message with credits
  (`Ledger.CreditsIffGiven`). Two such fragments: the peer's own request, when both open a channel at once
  (`Credits.CrossingRequestsGrant`), and the second packet of a suitable SDU of the peer
  (`Credits.LongSduGrantsCredits`).
- A channel advertises an MTU of 247, but the receiver keeps 244 bytes of an SDU (`CocSegmentation.IntactUpTo244`).
- An SDU that takes more than one link layer packet is not reported by a peer that holds nothing: only first
  fragments reach the channel, and continuations are taken for new messages (`CocDelivery.SduArrivesIffItFits`).
  With a fragment size of seven or more the peer goes on holding its first bytes. If it ignores the
  continuations, the SDU also costs the sender a credit that is not returned
  (`CocDelivery.LongSduCostsACredit`), and later SDUs are swallowed although they fit
  (`CocDelivery.LongSduSwallowsNext`). A first frame with nothing but the length loses the SDU as well
  (`CocSegmentation.HeadlessSduIsLost`).
- Returning a credit overwrites whatever message was pending (`CocSegmentation.SegmentationIndependent`), and
  so does a send. Between two ends of a channel with SDUs that fit one packet, each such event destroys one
  credit for good and no other event does (`Credits.StepKeeps`, `Credits.CreditsConserved`).
- `queue_att` does not set the transmit channel, which every signalling message and SDU changes
  (`AttDelivery.ChannelAfterSend`): an ATT message queued after one of those goes out on the wrong channel and
  never reaches the peer's ATT handler (`AttDelivery.AttArrivesIffChannelIsAtt`).
- An ATT message queued while another is being sent keeps that one's offset, which may lie behind its end
  (`Link.QueueAttKeepsValid`); otherwise it is sent as the tail of the other one and the peer is handed a
  splice of both (`AttDelivery.QueuedOverAnother`).
- After a data length update fragments can overrun the 64-byte transmit buffer: they do exactly when fragment
  size and message are both above it (`Fragmentation.BufferSufficesIffFits`).
- These received packets are read outside their bounds: a connection response of 4 to 11 bytes while there is a
  channel, a fragment that completes an ATT message shorter than its opcode needs, and, as a slave, an LL
  length packet below 7 bytes or a connection update of 10. No other packet is (`Link.ReceiveKeepsValid`).
- An auxiliary advertising packet with two data bytes decodes as a primary one (`AdvPdu.AuxiliaryReadAsPrimary`).
- The H4 framer indexes past its buffer for an ACL frame above 260 bytes (`Hci.StreamFramed`).
- A connection update stays pending after it was applied; this is harmless (`Timing.AppliedUpdateStaysExact`).
  The fraction of a tick left at its instant is dropped (`Timing.ScheduleThroughUpdate`).

## Model

| member | source | states |
|---|---|---|
| `Crc.Reflect` | src/ll/crc.rs:10-20 | the loop computes the bit reversal `Reflected` |
| `Crc.ComputeCrc24WithInit` | src/ll/crc.rs:28-46 | the byte loop leaves the register that `CrcBytes` describes |
| `Crc.AppendCrc` | src/ll/crc.rs:49-58 | writes the three register bytes after the PDU and nothing else; refuses less than three bytes of room and then writes nothing |
| `Crc.Check` | src/ll/crc.rs:61-66 | true exactly for three or more bytes with residue zero |
| `CrcRefinement.ReflectIsReverse` | src/ll/crc.rs:10-20 | the reflection loop is the swap-based reversal of 24 bits |
| `CrcRefinement.ReflectInvolution` | src/ll/crc.rs:10-20 | reflecting twice restores every 24-bit value |
| `CrcRefinement.ReversePoly` | src/ll/crc.rs:4-7 | the stored polynomial is the reversal of the documented one |
| `CrcRefinement.CrcRefinesNormalForm` | src/ll/crc.rs:28-46 | for every buffer and initial value the result is the reflection of an MSB-first register with `CRC_POLY` fed the same bits |
| `CrcRefinement.Crc24FromStart` | src/ll/crc.rs:22-25 | the CRC of a PDU is that register started at 0x555555 |
| `CrcRefinement.CheckValue` | src/ll/crc.rs:72-75 | the check value of "123456789" is 0xC25A56 |
| `CrcAlgebra.StepNXor` | src/ll/crc.rs:34-41 | shifting is linear |
| `CrcAlgebra.StepN24` | src/ll/crc.rs:34-41 | shifting stays in 24 bits and sends only zero to zero |
| `CrcAlgebra.CrcSuperposition` | src/ll/crc.rs:28-46 | the register is linear in start value and data |
| `CrcAlgebra.FeedValue` | src/ll/crc.rs:32-41 | adding a byte and shifting eight times is feeding its bits one at a time |
| `CrcAlgebra.CrcIsBitFeed` | src/ll/crc.rs:28-46 | the byte-at-a-time register is the bit-at-a-time one, always within 24 bits |
| `CrcDetection.ZeroNeedsOwnBits` | src/ll/crc.rs:34-42 | up to 24 bits clear a register exactly when they are its own low bits |
| `CrcDetection.ResidueOfTrailer` | src/ll/crc.rs:49-66 | three bytes clear a register exactly when they are the register's bytes |
| `CrcDetection.BurstLeavesResidue` | src/ll/crc.rs:28-46 | a burst inside 24 bits never cancels out |
| `CrcDetection.StepKeepsParity` | src/ll/crc.rs:7-41 | a shift keeps the parity of the register because the polynomial has seven ones |
| `CrcDetection.FeedParity` | src/ll/crc.rs:28-46 | the register's parity is the start's parity plus the number of ones fed |
| `CrcDetection.OddErrorLeavesResidue` | src/ll/crc.rs:28-46 | an odd number of ones never cancels out |
| `Whiten.WhitenByte` | src/ll/whiten.rs:9-20 | one byte is XORed with eight keystream bits and the LFSR moves eight steps |
| `Whiten.Whiten` | src/ll/whiten.rs:7-22 | the slice is XORed in place with the channel's keystream; nothing behind it changes |
| `WhitenSequence.WhiteningSequence` | src/ll/whiten.rs:2-22 | the bits of whitened zeros on every channel: a one, the six channel bits from the highest, and then s[i+7] = s[i] xor s[i+3] |
| `WhitenSequence.WhitenedAddsSequence` | src/ll/whiten.rs:7-22 | whitening adds that sequence to any buffer |
| `Keystream.WhitenInvolution` | src/ll/whiten.rs:6-22 | whitening twice on a channel restores every buffer |
| `Keystream.WhitenCarriesError` | src/ll/whiten.rs:7-22 | an error on air is the same error after de-whitening |
| `Keystream.WhitenTwoChannels` | src/ll/whiten.rs:7-22 | whitening on one channel and de-whitening on another adds the keystream of the summed seeds |
| `Keystream.StatesStayApart` | src/ll/whiten.rs:2-18 | the LFSR never reaches zero, and two channels share a state after any number of bytes exactly when their low six bits agree |
| `Keystream.KeyByteBits` | src/ll/whiten.rs:12-19 | a keystream byte is eight successive top bits, least significant first |
| `Keystream.KeyByteInjective` | src/ll/whiten.rs:12-19 | a keystream byte determines the register that made it |
| `Keystream.ChannelsSeparateEveryByte` | src/ll/whiten.rs:2-22 | channels with different low six bits whiten a buffer differently in every byte; others whiten it the same |
| `Keystream.StateXor` | src/ll/whiten.rs:14-18 | state and keystream are linear in the seed |
| `CrcPowers.PowersSpread` | src/ll/crc.rs:34-41 | no short polynomial times x^(8n) is short, for every n from 1 to 260 |
| `ChannelResidue.CombinedRun` | src/ll/whiten.rs:14-18 | while a keystream is fed to the CRC, scaled CRC register plus Galois register are only shifted |
| `ChannelResidue.KeyStreamLeavesResidue` | src/ll/whiten.rs:7-22 | the keystream of a nonzero register is never a codeword, at any packet length |
| `ChannelResidue.PowerNotOne` | src/ll/crc.rs:34-41 | the order of x exceeds the length of the longest packet |
| `ChannelResidue.TwoOnesLeaveResidue` | src/ll/crc.rs:28-46 | two flipped bits anywhere in a packet never cancel out |
| `Radio.VirtualRadio.Transmit` | src/sim.rs:50-65 | on air is the PDU with its CRC, whitened; the rest of the packet is zero; refuses PDUs above 257 bytes |
| `Radio.VirtualRadio.Receive` | src/sim.rs:69-83 | the outcome is `Received`: too short, residue wrong, or the de-whitened bytes with the CRC cut off |
| `Radio.Loopback` | src/sim.rs:87-91 | every PDU of at most 257 bytes comes back whole on every channel; a longer one is refused |
| `Radio.CheckAcceptsOnlyCrc` | src/ll/crc.rs:49-66 | a word passes `check` exactly when its last three bytes are what `append_crc` writes |
| `Radio.RejectedIffResidue` | src/sim.rs:69-83 | on its own channel a packet with any error is rejected exactly when the error alone leaves a residue; otherwise the PDU arrives with the error added |
| `Radio.ShortPacketRefused` | src/sim.rs:70-72 | the length error is for exactly the packets below three bytes |
| `Radio.BurstRejected` | src/sim.rs:50-83 | every nonzero error within 24 consecutive on-air bits, CRC included, is a CRC mismatch |
| `Radio.OddErrorRejected` | src/sim.rs:50-83 | every error of an odd number of bits is a CRC mismatch |
| `Radio.TwoBitErrorRejected` | src/sim.rs:50-83 | every error of two bits is a CRC mismatch |
| `Radio.ReceivedOnlyOnItsChannel` | src/sim.rs:3-7 | a packet is a CRC mismatch on every channel with different low six bits, whatever the PDU, and received alike on every other |
| `AdvPdu.HdrRoundTrip` | src/ll/pdu.rs:44-67 | a header with a defined type and six-bit length survives encoding |
| `AdvPdu.AuxRoundTrip` | src/ll/pdu.rs:562-580 | an auxiliary pointer survives exactly when its fields fit their bits |
| `AdvPdu.AuxLayout` | src/ll/pdu.rs:562-580 | the pointer is a 24-bit number with channel, offset and PHY from the low end |
| `AdvPdu.Layout` | src/ll/pdu.rs:290-442 | type number, length and the position of every address and field on the encoded bytes |
| `AdvPdu.EncodeRefusals` | src/ll/pdu.rs:290-430 | exactly when which of the two errors is given |
| `AdvPdu.EncodeTyped` | src/ll/pdu.rs:290-442 | writes header and payload and nothing else; the errors and their order, leaving the buffer alone |
| `AdvPdu.RoundTripIffFaithful` | src/ll/pdu.rs:168-442 | decoding inverts encoding exactly for the variants the wire keeps apart |
| `AdvPdu.CustomHeaderDecodes` | src/ll/pdu.rs:252-267 | when a custom extended header decodes with its data intact, and to which type |
| `AdvPdu.AuxiliaryReadAsPrimary` | src/ll/pdu.rs:239-251 | the auxiliary packet with two data bytes decodes as this primary packet |
| `AdvPdu.DecodesIffFramed` | src/ll/pdu.rs:168-279 | decoding succeeds exactly for a defined type, a matching length byte and a length the type takes, and which error it gives otherwise |
| `AdvPdu.EncodeDecoded` | src/ll/pdu.rs:168-279 | the payload of whatever decodes is the payload of the result, with the exact exceptions of the extended packets |
| `AdvPdu.ReencodesIffWritable` | src/ll/pdu.rs:168-442 | re-encoding with the packet's own address types gives back every byte exactly when the header has no bit that is never written and the payload is that of the result |
| `AdvPdu.PeriodicRoundTrip` | src/ll/pdu.rs:526-549 | the periodic field and its five bytes determine each other |
| `AdvPdu.LlDataRoundTrip` | src/ll/pdu.rs:610-660 | connection parameters survive exactly when CRC init, hop and clock accuracy fit their widths |
| `AdvPdu.LlDataOnto` | src/ll/pdu.rs:612-639 | every 22-byte field decodes and encodes back to itself |
| `AdvPdu.LlDataFields` | src/ll/pdu.rs:612-639 | the value of every field in terms of the 22 bytes |
| `AdvPdu.LlDataLayout` | src/ll/pdu.rs:642-659 | the bytes written for every field |
| `AdvData.Build` | src/gap/ad.rs:93-109 | the error of the first entry that cannot be packed, else the length; the entries before it are written and nothing else |
| `AdvData.BuildsIffItFits` | src/gap/ad.rs:93-109 | `build` succeeds exactly when no entry exceeds 254 bytes and all fit |
| `AdvData.FirstFailure` | src/gap/ad.rs:95-102 | which error stops `build` at the first entry that fails |
| `AdvData.EntryLayout` | src/gap/ad.rs:103-106 | where length, type and data of every entry stand |
| `AdvData.NextOutcome` | src/gap/ad.rs:67-84 | exactly when the iterator ends, fails and goes on |
| `AdvData.AdIter.Next` | src/gap/ad.rs:67-84 | one step of the iterator: entry and new position, or an error in place |
| `AdvData.ParseBuilt` | src/gap/ad.rs:67-109 | iterating over what `build` wrote yields the entries |
| `AdvData.BuildParsed` | src/gap/ad.rs:67-109 | a buffer that iterates without error is what `build` writes for its entries |
| `AdvData.ErrorRepeats` | src/gap/ad.rs:67-84 | after the end or an error every later call, however many, reports the same and stays in place |
| `Loopback.Iterate` | src/gap/ad.rs:67-90 | running the iterator to its end yields all entries or the first error |
| `Loopback.Advertise` | tests/sim_loopback.rs:26-55 | for every address, channel, buffer size and entry list the scanner sees address and entries exactly when they fit buffer and payload; otherwise the error of `build` or of the encoder |
| `DataPdu.Encode` | src/ll/pdu.rs:494-509 | writes header and payload and nothing else; the errors leave the buffer alone |
| `DataPdu.DecodeEncoded` | src/ll/pdu.rs:469-510 | decoding inverts encoding |
| `DataPdu.DecodeFails` | src/ll/pdu.rs:471-491 | exactly when decoding fails, with which error |
| `DataPdu.EncodeDecoded` | src/ll/pdu.rs:469-510 | whatever decodes is the encoding of the result up to reserved header bits |
| `Conn.Conn.TxFragment` | src/hw/conn.rs:565-601 | the packet in `tx_buf` is the encoding of the next fragment and the fragmenter moves on |
| `Conn.Conn.QueueAtt` | src/hw/conn.rs:1215-1220 | the message becomes pending, cut to the buffer; offset and channel stay |
| `Conn.Conn.QueueSignaling` | src/hw/conn.rs:734-741 | the message becomes pending from its start on the signalling channel |
| `Conn.Conn.HandleLeSignaling` | src/hw/conn.rs:663-732 | the four signalling messages do to channel and transmit queue what `Link.HandleSignaling` says |
| `Conn.Conn.L2capConnect` | src/hw/conn.rs:744-758 | opens a channel and queues the request unless there is a channel |
| `Conn.Conn.L2capSend` | src/hw/conn.rs:763-780 | the three refusals, or one credit spent and the framed SDU queued |
| `Conn.Conn.RxCocSdu` | src/hw/conn.rs:785-830 | collects one frame; a complete SDU is stored, reported, and its credit queued |
| `Conn.Conn.AppendAtt` | src/hw/conn.rs:983-994 | collects a fragment within the buffer and hands on a complete message |
| `Conn.Conn.HandleL2cap` | src/hw/conn.rs:945-995 | a first fragment restarts reassembly and goes to its channel, any other is collected |
| `Link.QueueAttKeepsValid` | src/hw/conn.rs:1215-1220 | the offset that is kept lies in the new message, so that the next fragment can be built, exactly when that is long enough, and is zero when nothing was pending |
| `Link.FragKeepsValid` | src/hw/conn.rs:945-1345 | no fragment overruns a buffer in any state, and exactly which ones the reassembler, the signalling handler, the ATT handler and the slave's LL control handler read outside of |
| `Link.ReceiveKeepsValid` | src/hw/conn.rs:442-475 | the same for every byte string received as a packet |
| `Handlers.AttReadsInside` | src/hw/conn.rs:1015-1177 | the indices and slices each ATT opcode takes lie inside the message exactly when it is not short |
| `Handlers.ControlReadsInside` | src/hw/conn.rs:1290-1336 | the same for the LL control packets of a slave |
| `Handlers.SduEvent` | src/hw/conn.rs:785-830 | a frame raises `Data` exactly when it completes an SDU, which is then logged and stored |
| `Handlers.FragEvent` | src/hw/conn.rs:945-995 | the event of every fragment: `Data` exactly for a completed SDU, `L2cap` exactly for a start on a channel that nothing handles |
| `Handlers.AttComplete` | src/hw/conn.rs:983-994 | when a fragment completes an ATT message and how it is cut |
| `Handlers.IgnoredPackets` | src/hw/conn.rs:946-981 | which packets change nothing, and what one on an unknown channel does |
| `Handlers.SmpHandedOn` | src/hw/conn.rs:955-960 | an SMP message is handed on whole and nothing else happens |
| `Negotiation.RequestReceived` | src/hw/conn.rs:669-693 | what every request does to channel and transmit queue, byte for byte |
| `Negotiation.ResponseReceived` | src/hw/conn.rs:694-710 | what every response does |
| `Negotiation.CreditReceived` | src/hw/conn.rs:711-721 | what every flow control credit does |
| `Negotiation.EndReceived` | src/hw/conn.rs:722-729 | what the end of a channel does |
| `Negotiation.OthersIgnored` | src/hw/conn.rs:664-731 | every other message, and a short one but for a response, changes nothing |
| `Negotiation.ConnectQueues` | src/hw/conn.rs:744-758 | the request queued, and nothing over an open channel |
| `Negotiation.QueuedWhole` | src/hw/conn.rs:734-1220 | to what length queued messages are cut |
| `Negotiation.SendOutcome` | src/hw/conn.rs:763-780 | the order of the refusals and what an accepted SDU queues |
| `Negotiation.RequestBindsSend` | src/hw/conn.rs:669-770 | after every request a send is accepted exactly within the MTU it names and 247, with a credit |
| `Negotiation.ResponseBindsSend` | src/hw/conn.rs:694-770 | after every accepting response the MTU it names and the one before both bound a send |
| `Negotiation.AcceptedWithinMtu` | src/hw/conn.rs:663-780 | over everything that can happen at one end, no accepted SDU exceeds what the last request or accepting response named |
| `Fragmentation.FragmenterEnds` | src/hw/conn.rs:565-601 | the message is pending exactly until its fragments are used up, then offset and flag are cleared |
| `Fragmentation.SmallPduNeverEnds` | src/hw/conn.rs:569-583 | with a fragment size of four or less a message is never finished |
| `Fragmentation.FragmentAccounting` | src/hw/conn.rs:565-601 | payloads fit and add up to the message plus four; the marks of first and later fragments; the number of fragments |
| `Fragmentation.ContinuationAccounting` | src/hw/conn.rs:565-601 | the rest of a message is cut into the rounded-up number of non-empty continuations |
| `Fragmentation.BufferSufficesIffFits` | src/hw/conn.rs:584-594 | every fragment of a message fits the transmit buffer exactly when the fragment size or the message does |
| `Fragmentation.FragOnAir` | src/hw/conn.rs:584-594 | every byte of a fragment on air: mark, acknowledgement bits, lengths, channel and body |
| `Fragmentation.FragDecodes` | src/hw/conn.rs:584-594 | what the receiver decodes of it, with NESN negated, SN as it is and MD clear |
| `Fragmentation.AttRoundTrip` | src/hw/conn.rs:945-995 | a message on the ATT channel is handed to the peer exactly, at the last fragment and not before, from every prior state and with any acknowledgement bits |
| `AttDelivery.AttArrivesIffChannelIsAtt` | src/hw/conn.rs:565-1220 | a message from `queue_att` with nothing pending is handed to the peer's ATT handler exactly when the transmit channel is ATT |
| `AttDelivery.OtherChannelLoses` | src/hw/conn.rs:945-982 | no fragment of a message on another channel, continuations included, makes the peer hand that message on |
| `AttDelivery.ChannelAfterSend` | src/hw/conn.rs:734-780 | signalling messages and SDUs set the transmit channel and `queue_att` keeps it |
| `AttDelivery.QueuedOverAnother` | src/hw/conn.rs:565-1220 | a message queued over one that is being sent reaches the peer as the tail of that one: what is handed on and at which fragment |
| `CocSegmentation.SegmentationIndependent` | src/hw/conn.rs:785-830 | for every cut into frames the SDU is stored and logged once, on the last frame, with one credit queued |
| `CocSegmentation.DataOnLastFrame` | src/hw/conn.rs:785-830 | the event is `Data` for the last frame and none before |
| `CocSegmentation.IntactUpTo244` | src/hw/conn.rs:785-830 | however it was cut into frames, the SDU is reported whole exactly up to 244 bytes |
| `CocSegmentation.HeadlessSduIsLost` | src/hw/conn.rs:794-804 | after a first frame with only the length, no later frame completes the SDU |
| `CocDelivery.SduArrivesIffItFits` | src/hw/conn.rs:763-977 | when a peer in any state of its channel reports an SDU that `l2cap_send` accepted: holding nothing, exactly when it and six header bytes fit one packet; holding part of another, for one packet exactly when it is what comes out, and always only if it begins with the bytes held and its own length |
| `CocDelivery.LongSduIsLost` | src/hw/conn.rs:967-977 | no fragment of an SDU above one packet makes a peer that holds nothing report it |
| `CocDelivery.FirstFragIntoHeld` | src/hw/conn.rs:804-816 | what a receiver that holds part of an SDU does with the first packet of the next |
| `CocDelivery.ShortSduIntoHeld` | src/hw/conn.rs:804-829 | what it reports of an SDU in one packet |
| `CocDelivery.LongSduCostsACredit` | src/hw/conn.rs:763-830 | an SDU above one packet whose continuations the peer ignores spends a credit, makes the peer queue nothing, and leaves it holding the first bytes |
| `CocDelivery.LongSduSwallowsNext` | src/hw/conn.rs:804-816 | while the bytes held and the next message stay below the lost SDU's length, the next SDU is not reported |
| `Ledger.CreditStep` | src/hw/conn.rs:663-732 | every fragment from any peer: it opens the channel with the credits it names, closes it, or adds what it grants up to 65535 |
| `Ledger.CreditsIffGiven` | src/hw/conn.rs:663-732 | after any fragments an end has credits exactly when one gave some that none after it took, or it had some that none took |
| `Ledger.SendsWithinGrants` | src/hw/conn.rs:663-780 | over everything that can happen at one end of an open channel, credits left plus sends accepted are credits at the start plus credits gained |
| `Credits.HandshakeEstablishes` | src/hw/conn.rs:669-710 | opening a channel from two quiet connections gives the acceptor all credits and the initiator none |
| `Credits.StepKeeps` | src/hw/conn.rs:744-830 | every send of an SDU that fits one packet, transmission and reception keeps the content invariant, creates no credit, and destroys one exactly when it queues over a pending message |
| `Credits.CreditsConserved` | src/hw/conn.rs:744-830 | over every run of SDUs that fit one packet the credits in the system are those at the start less the number of such events, hence conserved exactly when there was none; SDUs seen, on air and queued are those sent, in order |
| `Credits.GrantedCreditsRemain` | src/hw/conn.rs:663-830 | the same from the handshake on: all eight credits are there exactly when no event queued over a pending message |
| `Credits.InitiatorNeverSends` | src/hw/conn.rs:694-709 | in every state of those runs the initiator's sends are refused |
| `Credits.LongSduGrantsCredits` | src/hw/conn.rs:945-967 | an accepted SDU above one packet spends a credit with nothing queued to return it and gives the initiator eight out of its own bytes |
| `Credits.CrossingRequestsGrant` | src/hw/conn.rs:669-693 | a peer's request that crosses one's own gives eight credits |
| `Hci.Command` | src/hci.rs:58-70 | payload, type and length; read by the layout of the interface it gives back OGF, OCF and parameters exactly when they fit |
| `Hci.Event` | src/hci.rs:73-84 | payload, type and length; read by the layout it gives back code and parameters exactly when they fit |
| `Hci.Acl` | src/hci.rs:87-100 | payload, type and length; read by the layout it gives back handle and data |
| `Hci.OpcodeRoundTrip` | src/hci.rs:370-373 | the opcode split recovers OGF and OCF exactly when they have six and ten bits |
| `Hci.H4Framer.Feed` | src/hci.rs:130-192 | one byte moves the framer as `FeedByte` says and returns its frame with type, bytes and length |
| `Hci.FrameTail` | src/hci.rs:130-192 | from any point inside a frame the rest of it yields the frame on its last byte |
| `Hci.StreamFramed` | src/hci.rs:130-197 | a stream of frames with other bytes between them yields exactly the frames, each on its last byte, and never finds the buffer full exactly when every frame fits 260 bytes |
| `Hci.StreamRead` | src/hci.rs:56-197 | whatever messages are built and sent, with other bytes between them, are read from the framer's packets in order |
| `Hci.ConstructorsWellFormed` | src/hci.rs:56-101 | what the constructors build is a frame exactly when its length fits its length field |
| `Timing.IntervalAccum.Next` | src/hw/timers.rs:37-43 | ticks and kept fraction are worth exactly the units and the fraction before, within 32 bits |
| `Timing.PeriodicSync.NextInterval` | src/hw/ble.rs:27-33 | the same step as an accumulator for 1.25 ms units |
| `Timing.PeriodicSync.Advance` | src/hw/ble.rs:1018-1019 | the next event moves by those ticks modulo 2^32 |
| `Timing.ScheduleExact` | src/hw/timers.rs:37-43 | over any sequence of intervals the ticks are the exact total rounded down once |
| `Timing.SchedulesInTicks` | src/hw/timers.rs:4-43 | the same in numbers for both units |
| `Timing.ConnTiming.Event` | src/hw/conn.rs:374-387 | counter, interval, fraction and anchor after one connection event |
| `Timing.AnchorExact` | src/hw/conn.rs:379-387 | while no update falls due the n-th anchor is the exact position rounded down, modulo 2^32 |
| `Timing.AnchorInTicks` | src/hw/conn.rs:379-387 | the same in numbers |
| `Timing.AppliedUpdateStaysExact` | src/hw/conn.rs:379-387 | an update applied again at each turn of the event counter never moves the anchor |
| `Timing.UpdatedScheduleExact` | src/hw/conn.rs:379-387 | from the event an update falls due, anchors are exact in the new interval |
| `Timing.ScheduleThroughUpdate` | src/hw/conn.rs:379-387 | with an update pending, for any number of events: exact in the old interval up to the instant and in the new one from it on |
| `Hopping.NextChannel` | src/hw/conn.rs:1471-1479 | the first channel cyclically from the hop whose binary digit in the 40-bit map is set, or the hop itself when none is |
| `Hopping.BitSetIsUsed` | src/hw/conn.rs:1474 | the bit the search tests is that digit |
| `Hopping.PlainHopIffUsed` | src/hw/conn.rs:1471-1479 | the search gives the plain hop exactly when that channel is used or none is |
| `Hopping.FullMapIsPlainHop` | src/ll/channels.rs:26-28 | with every channel in use, whatever the spare bits, the search is the plain hop |
| `Hopping.HopsClosedForm` | src/ll/channels.rs:26-28 | the n-th hop in closed form |
| `Hopping.HopsDistinct` | src/ll/channels.rs:26-28 | any 37 consecutive channels are distinct for every nonzero hop |
| `Bonds.RamBondStore.Save` | src/hw/conn.rs:142-162 | replaces the peer's slot, else fills the first free one, else changes nothing |
| `Bonds.RamBondStore.Find` | src/hw/conn.rs:164-170 | the first slot with the peer |
| `Bonds.RecordRoundTrip` | src/hw/bond_flash.rs:16-51 | decoding inverts encoding of a record |
| `Bonds.RecordLayout` | src/hw/bond_flash.rs:16-32 | every byte of a record |
| `Bonds.RecordDecoded` | src/hw/bond_flash.rs:35-51 | what any 44 bytes decode to |
| `Bonds.SavedThenFound` | src/hw/conn.rs:142-170 | on any slots a save changes what is found for its peer and no other, and is lost exactly when all slots hold other peers |
| `Bonds.RoomIff` | src/hw/bond_flash.rs:137-152 | when a save rewrites the page |
| `Bonds.FlashBondStore.constructor` | src/hw/bond_flash.rs:69-97 | the cache is what the page loads as |
| `Bonds.FlashBondStore.LoadPage` | src/hw/bond_flash.rs:83-97 | every slot is decoded from its record, or none without the magic word |
| `Bonds.FlashBondStore.Program` | src/hw/bond_flash.rs:109-122 | programming changes only its range, clears bits there and sets none, and gives exactly the bytes where the page was erased |
| `Bonds.FlashBondStore.Flush` | src/hw/bond_flash.rs:99-127 | the page becomes an image of the cache |
| `Bonds.FlashBondStore.Save` | src/hw/bond_flash.rs:131-153 | the cache changes as the RAM store's slots do, and the page is its image unless the store was full |
| `Bonds.FlashBondStore.Find` | src/hw/bond_flash.rs:155-161 | the first cache slot with the peer |
| `Bonds.LoadedImage` | src/hw/bond_flash.rs:83-127 | opening the page that a flush wrote gives back the cache |
| `Bonds.ImageLayout` | src/hw/bond_flash.rs:108-124 | where the magic word and each record stand |
| `Bonds.StoreIsMap` | src/hw/conn.rs:141-171 | after any saves the first eight distinct peers have their last bond, no other peer has one, and addresses are unique |
| `Bonds.FlashRefinesRam` | src/hw/bond_flash.rs:62-161 | over every run of saves and reopenings the cache is the RAM store's slots and the page loads as that cache |
| `Bonds.FlashFinds` | src/hw/bond_flash.rs:62-161 | what a store finds after any saves and reopenings, before and after one more |

## Left out

- Registers of RADIO, TIMER0, CCM and NVMC, busy-waiting and raw pointers. Flash is an array of bytes that erasing sets to 0xFF and programming can only clear; the word access of the controller and its ready flag are not modelled.
- The standard's own whitening sequence: the proofs are about the LFSR of the code.
- Acknowledgement: the peer's NESN is never consulted by the code and repeated packets are still processed, so the link of `Credits` and `Fragmentation` delivers each packet once and in order.
- Reception before `DataPdu::decode`, where the radio takes the length from other bits of the header.
- SMP, encryption and the cipher blocks: an SMP message is logged as handed over; its handlers check the lengths they need.
- The ATT and GATT handlers: a complete ATT message is logged as handed over, and of its handler only the reads are modelled. The event it may raise is not, and what it queues in answer enters through `QueueAtt`; `queue_notify` is the same with a three-byte head.
- LL control PDUs beyond what their handler reads, and the parsing of connection updates: the new interval and instant are inputs of `Timing`, the new fragment size one of `Link`.
- Supervision timeout, and the anchor's use to arm the timer.
- The event rings of `Hci` and `Ble`, HCI command handling and event formatting, the accept list, addresses and private address generation: only easy members.
- Fields of a channel that nothing reads (`tx_sdu`) and the stale bytes of `rx_sdu` and `rx_l2cap` behind their lengths.
- Helper methods: the inner loops of `crc24_with_init` and `whiten`, the writes and the last lines of `tx_fragment`, the writes of `l2cap_send`, the first half of `rx_coc_sdu`, the dispatch of `handle_l2cap` and the programming loop of `flush` are methods of their own, called where the source has the code in line.
- Conn.Conn.TxFragment: requires the offset to lie in the message and the payload to fit the 64-byte transmit buffer, because the source panics otherwise; `Link.QueueAttKeepsValid` and `Fragmentation.BufferSufficesIffFits` say exactly when that is so.
- Fragmentation.AttRoundTrip: stated for a message queued when nothing is pending, since a message queued over another starts at the offset of that one.
- Conn.Conn.AppendAtt: requires that the message it completes is not shorter than its handler reads, where the source panics.
- Conn.Conn.HandleLeSignaling: requires that the message is not a short connection response, which the source reads out of bounds.
- Hci.H4Framer.Feed: requires room in the buffer inside a frame; `Hci.StreamFramed` says exactly which streams keep it.
- Hopping.NextChannel: requires that current channel and hop add up within a byte, which the source adds without a check.
- Credits.StepKeeps: SDUs that fit one packet; `CocDelivery.LongSduCostsACredit` and `Credits.LongSduGrantsCredits` show what a longer one does, and `Ledger.SendsWithinGrants` holds for all.
- Credits.CreditsConserved: SDUs that fit one packet, as for `StepKeeps`; an SDU that a later send overwrote before its transmission no longer counts as sent.
- Credits.GrantedCreditsRemain: SDUs that fit one packet, as for `StepKeeps`.
- Credits.InitiatorNeverSends: SDUs that fit one packet and no crossing request; `Ledger.CreditsIffGiven` is the exact condition with any peer.
- CocDelivery.SduArrivesIffItFits: for a peer that holds part of another SDU and an SDU above one packet only the necessary condition, since the continuations are then read as messages of any kind.
