# Balansir in Dafny

A model of the parts of Balansir that decide what happens to packets, names and policies, with proofs about
every input and every run. `dafny verify dfyconfig.toml` checks everything.

Four groups of modules:

- **The B4 packet path.** `Packet` (IPv4/TCP layout, TCP option lists, option stripping, MSS rewriting),
  `Checksum`, `Strategies` (strategies and profiles), `TlsSni` (server name extraction), `ClientHello` (the
  probe that builds such a record), `Reassembly` (the per-flow head-of-stream reassembler), `Netlink`
  (attributes and messages of the queue) and `Engine` (the interception loop over all of them).
- **The DNS plane.** `DnsName` (compressed names), `DnsPlane` (answers, CNAME chain, observation),
  `DnsForwarder` (the response cache and the domain filter).
- **Reconciliation.** `Diff` (the planner and what executing a plan leads to) and `Coordinator` (cycles,
  generations, snapshots, rollback).
- **Resolvers and bounded searches.** `Discovery`, `Geosite`, `Roles`.

`Wire`, `Text` and `Finite` hold shared types and small facts.

Code that updates objects is a class with those fields (`TcpPacket`, `TcpReassembler`, `Engine`, `DnsCache`,
`GeositeStore`, `Coordinator`, `B4Discovery`); loops over buffers are methods with invariants. Each is tied to
a function of its inputs or its old state, and the theorems are about those functions. Clocks, queue messages,
probe results, provider and executor outcomes, the strategy sets' answers and the default-route owner are
parameters.

## The main results

- **Server name extraction is exact.** The extractor answers a host if and only if the bytes are the encoding of
  a well-formed ClientHello whose first host-name entry is that host (`TlsSni.SniExact`); later bytes never
  change an answer (`TlsSni.SniStable`).
- **Reassembly is exact.** For any traffic of a stream on one flow, in any order, repeated, overlapping, with gaps
  and wrapping numbers, among any other flows, the reassembler's sequence-number branches follow a machine on
  stream offsets. Each answer is what that machine has collected, as long as the flow is not idle for too long and
  finds room (`Reassembly.ExactAnswers`).
- **Segmentation does not matter.** However a stream is cut and repeated without gaps, the reassembler answers
  nothing until a prefix parses and then always the host of the whole stream
  (`Reassembly.SegmentationIndependent`). Buffers remain true parts of their streams and only such parts are ever
  named (`Reassembly.RunIsSafe`).
- **In the engine this hangs on one mask.** A hello that arrives in order over any number of packets is identified
  by the packet that completes it if none of its packets has a flag of the mask 0x11. Otherwise exactly this is
  parsed: what came since the first packet after the last such flag that begins like a record, or else the last
  packet alone (`Engine.SplitHelloExactly`).
- **Every packet gets its verdict.** Each received packet has one verdict under its own id, determined by the
  packet and everything before it; a drop or a change has a stated reason; the counters balance; the loop dies at
  exactly two kinds of packet, told by packet and configuration alone (`Engine.InterceptionLoop`, `Engine.VerdictsAreSafe`, `Engine.CountersBalance`,
  `Engine.PanicsExactly`).
- **Strategies keep the segment.** Any sequence of strategies yields a packet that parses as the same segment of
  the same flow, and a receiver takes the same payload from it if and only if no option was stripped or nothing
  trailed the packet (`Strategies.StrategiesKeepSegment`); stripping is a filter on the option list
  (`Packet.StripRefinesFilter`).
- **Names decode to their meaning.** Decoding succeeds if and only if the labels spelled by the label-and-pointer
  rules of section 4.1.4 of RFC 1035 normalise to that name (`DnsName.DecodeExact`), and an observation records
  exactly the addresses on the CNAME chain (`DnsPlane.ObserveExact`).
- **Plans converge** if and only if the desired rules do not contradict each other and the mechanism took what the
  plan needed, whatever it answered to the rest (`Diff.Converges`), and over
  every sequence of cycles execution, snapshot, rollback and generation keep their discipline
  (`Coordinator.RunIsDisciplined`, `Coordinator.GenerationCountsCommits`, `Coordinator.RunSettles`).

## Where the code and its comments differ

The model follows the code.

- The TCP checksum fixer sums over the old checksum field, and over bytes that follow the IPv4 packet in the
  buffer. A receiver accepts the result only if field and trailing bytes add up to a multiple of 0xffff: without
  trailing bytes, only if the field was 0 or 0xffff (`Checksum.FixTcpChecksum`). `Checksum.FixStaleSegment` and
  `Checksum.FixTrailingSegment` have a packet each for which it does not.
- Stripping writes the buffer length into the IPv4 total length, so trailing bytes become payload
  (`Packet.StripRefinesFilter`).
- The engine's "FIN or RST" mask is 0x11, which is FIN or ACK. A data packet with ACK ends its flow in the
  reassembler, so nothing before it or in it is used with a later packet (`Engine.AckDisablesReassembly`);
  `Engine.SplitProbe` has two packets for every host and every flags byte.
- A duplicate of buffered bytes is meant to change nothing. It does so exactly if the sequence numbers have not
  wrapped since; otherwise it reads as a gap and the flow is lost (`Reassembly.DuplicateKeepsExactly`,
  `Reassembly.WrappedDuplicateIsLost`).
- Protocol detection reads byte 9 of an IPv4 packet after asking for nine bytes only. Nine bytes end the loop
  (`Engine.NineBytesPanic`).
- Option stripping reads the length of a lone last option kind past the header, and fails exactly if nothing
  follows (`Packet.ScanKept`, `Packet.TcpPacket.StripOption`); `Packet.StripDanglingSyn` and
  `Engine.DanglingSynPanics` have a packet.
- Padding can complete an option that ran past the header, so an option of the stripped kind may appear; the
  exact condition is in `Packet.StripRemovesKind`, an example in `Packet.StripMayComplete`.
- The total length recorded with a packet is never updated. On a packet without trailing bytes it stays true of a
  strip exactly if fewer than four bytes were removed (`Packet.TcpPacket.StripOption`).
- The probe's supported_versions extension declares more bytes than it carries. server_name comes first, so the
  host is still read back.
- The decoder's limit of 255 does not count the root byte of a name.
- A label may hold a dot, so different names can have one key: a decoded key tells its labels exactly if none of
  them holds a dot (`DnsName.KeyTellsLabelsExactly`, `DnsName.DottedLabelCollides`).
- An include loads the included file's category and is never merged into the including one
  (`Geosite.LoadedMatches`).
- No transition leads back to Idle, so after the first cycle events no longer move the coordinator; only the
  final entries do (`Coordinator.SettledIsStuck`, `Coordinator.RunSettles`).
- In the domain filter the longest listed suffix decides (`DnsForwarder.ClassifyDomain`).
- A discovery pass with budget left but no untried or lapsed candidate answers nothing, although a strategy is
  active (`Discovery.ActiveWithheld`); the default settings reach this with the fifth pass
  (`Discovery.RunWithholdsActive`).
- Probing the active candidate again does not renew it unless the threshold is negative, since its new quality
  competes with itself
  (`Discovery.ReprobeRefreshesExactly`, `Discovery.NeverRevalidated`).
- A mechanism that answers "already applied" is a success that leaves the recorded state as it was. The next cycle
  then plans the same rule and raises the generation again, without end (`Coordinator.StaleAnswersNeverQuiesce`).

## Model

| member | source | states |
|---|---|---|
| `TlsSni.SniExact` | crates/balansir-b4/src/packet.rs:586-684 | Both directions: a host is extracted exactly from the encodings of ClientHellos in which it is the first host-name entry of the first server_name extension, is valid UTF-8, and all block lengths fit |
| `TlsSni.SniStable` | crates/balansir-b4/src/packet.rs:586-684 | A successful extraction is unchanged by appending any bytes |
| `TlsSni.LegalHelloNamesItsHost` | crates/balansir-b4/src/packet.rs:586-684 | Every encoded legal hello, with arbitrary other entries and extensions before the host, yields its host |
| `TlsSni.HelloOf` | crates/balansir-b4/src/packet.rs:586-684 | Whenever extraction succeeds, the whole structure can be read back so that encoding it gives the same bytes |
| `TlsSni.ExtractTlsSni` | crates/balansir-b4/src/packet.rs:586-613 | The record and handshake checks with their error exits compute the recursive meaning used above |
| `TlsSni.ScanHello` | crates/balansir-b4/src/packet.rs:614-642 | The cursor over session, ciphers and compression equals the nested-block meaning on all bodies |
| `TlsSni.ScanExtensions` | crates/balansir-b4/src/packet.rs:643-657 | The extension loop finds the first server_name extension on arbitrary bytes |
| `TlsSni.ParseSniList` | crates/balansir-b4/src/packet.rs:660-684 | The entry loop equals the recursive first-host-name meaning on arbitrary bytes |
| `ClientHello.BuildClientHello` | crates/balansir-daemon/src/l2_probe.rs:104-189 | The step-by-step buffer equals the record structure, with every length cast as in the code |
| `ClientHello.ProbeRoundTrip` | crates/balansir-daemon/src/l2_probe.rs:104-189 | For UTF-8 hosts, extracting from the built hello returns the host if and only if it has at most 65464 bytes |
| `ClientHello.ProbeLengths` | crates/balansir-daemon/src/l2_probe.rs:104-135 | Up to that size the record, handshake and extensions lengths equal the bytes that follow them |
| `ClientHello.ProbeIsLegal` | crates/balansir-daemon/src/l2_probe.rs:104-189 | The built bytes are the encoding of a legal hello |
| `Reassembly.TcpReassembler.FeedSegment` | crates/balansir-b4/src/reassembly.rs:105-222 | Feeding a segment updates table and counter and answers as one pure step: sweep, empty and terminal segments, admission, overlap, limits, parsing |
| `Reassembly.TcpReassembler.EvictExpired` | crates/balansir-b4/src/reassembly.rs:225-228 | Exactly the flows seen within the timeout stay |
| `Reassembly.OverlapIsExact` | crates/balansir-b4/src/reassembly.rs:161-197 | With sequence numbers modulo 2^32, an adjacent or overlapping segment extends the buffer to a longer part of the same stream |
| `Reassembly.AbsorbIsSafe` | crates/balansir-b4/src/reassembly.rs:128-221 | A flow that keeps its segment holds a non-empty part of its stream that starts with 0x16 and fits the limit, or a decision and no bytes |
| `Reassembly.StepIsSafe` | crates/balansir-b4/src/reassembly.rs:105-222 | One step keeps that for the whole table and its size limit, and answers only a host named by a part of that flow's stream |
| `Reassembly.RunIsSafe` | crates/balansir-b4/src/reassembly.rs:105-222 | The same over every run: any interleaving, order, duplication, overlap and sequence wrap |
| `Reassembly.OtherFlowStep` | crates/balansir-b4/src/reassembly.rs:105-222 | A segment of one flow neither adds, removes nor changes another flow that is not idle |
| `Reassembly.AbsorbFollowsSpan` | crates/balansir-b4/src/reassembly.rs:150-216 | Every sequence-number branch for an existing flow, wrap included, is the offset machine's branch and leaves its span |
| `Reassembly.ExactAnswers` | crates/balansir-b4/src/reassembly.rs:105-222 | For all traffic of a stream on a flow, in any order, with repetitions, overlaps, gaps, end marks and wrapping numbers, while the flow is not idle and finds room: the table holds the flow exactly as the offset machine says, and each answer is the parse of its span |
| `Reassembly.AnswersStem` | crates/balansir-b4/src/reassembly.rs:105-222 | The same traffic with any clock and any room: every host answered is named by stream bytes that begin with a segment fed since the flow was absent |
| `Reassembly.DuplicateKeepsExactly` | crates/balansir-b4/src/reassembly.rs:181-189 | A repeated segment leaves an undecided flow as it is, its time apart, exactly if its number is below the expected one; otherwise the flow is dropped |
| `Reassembly.WrappedDuplicateIsLost` | crates/balansir-b4/src/reassembly.rs:181-189 | Two bytes across the wrap for which it is dropped |
| `Reassembly.PrefixAnswers` | crates/balansir-b4/src/reassembly.rs:105-222 | Each segment that brings bytes to a flow without gaps, repetitions allowed, is answered with the parse of exactly the prefix received so far |
| `Reassembly.SegmentationIndependent` | crates/balansir-b4/src/reassembly.rs:105-222 | For every cut of a stream that parses to a host, with repetitions and overlaps: no answer until a prefix parses, then that host from there on, and at the latest when the stream is complete |
| `Reassembly.RestartedAnswers` | crates/balansir-b4/src/reassembly.rs:105-222 | For every in-order stream with end marks anywhere, not idle and with room: each segment is answered with the parse of what came since the first segment after the last end mark that begins like a record, and with nothing if there is none |
| `Reassembly.EndForgets` | crates/balansir-b4/src/reassembly.rs:120-124 | A data segment with the terminal mark removes its flow and is answered with nothing |
| `Reassembly.EveryCutIsRecognised` | crates/balansir-b4/src/reassembly.rs:105-222 | A stream sent alone in arbitrary non-empty pieces, from any initial number, is answered with its host at the last piece |
| `Packet.StripRefinesFilter` | crates/balansir-b4/src/packet.rs:163-222 | With options that end properly, a change yields a packet that parses, with the options minus every one of the kind plus NOP padding, a word-aligned header no longer than before, and payload, addresses, ports and remaining header bytes unchanged; a receiver takes the same payload if and only if nothing trailed the packet |
| `Packet.StripRemovesKind` | crates/balansir-b4/src/packet.rs:163-222 | For every option area, exactly when an option of the stripped kind can still be read afterwards |
| `Packet.StripMayComplete` | crates/balansir-b4/src/packet.rs:163-222 | An option area for which one can |
| `Packet.StripLeavesNoDangling` | crates/balansir-b4/src/packet.rs:163-222 | Stripping never creates an option kind without a length byte |
| `Packet.KeptFits` | crates/balansir-b4/src/packet.rs:168-199 | The padded remainder never exceeds the original options |
| `Packet.RebuiltReparses` | crates/balansir-b4/src/packet.rs:200-222 | The rebuilt packet parses, with a given layout, exactly when its length cast to 16 bits still covers the IP header |
| `Packet.RebuiltIsSameSegment` | crates/balansir-b4/src/packet.rs:200-222 | Then it has the given options and otherwise the same segment and headers, as the accessors read them |
| `Packet.RebuiltWire` | crates/balansir-b4/src/packet.rs:200-222 | Its total length covers the whole buffer; the payload up to the total length is the old one if and only if the old packet had no trailing bytes |
| `Packet.TcpPacket.StripOption` | crates/balansir-b4/src/packet.rs:163-222 | The in-place loop fails exactly if the header ends in a lone option kind and nothing follows; otherwise it performs that filter, reports whether an option of the kind was there, and the recorded total length stays true exactly as stated |
| `Packet.StripDanglingSyn` | crates/balansir-b4/src/packet.rs:181 | A 44-byte SYN on which stripping any kind fails |
| `Packet.ScanKept` | crates/balansir-b4/src/packet.rs:164-192 | The copying loop fails exactly on a lone last kind at the end of the buffer; otherwise it keeps the options of other kinds and whatever follows the last readable option |
| `Packet.TcpPacket.SetMss` | crates/balansir-b4/src/packet.rs:135-160 | The in-place loop sets the first MSS option and reports whether there is one |
| `Packet.MssIsSameSegment` | crates/balansir-b4/src/packet.rs:135-160 | The rewritten packet has the same layout, segment and headers, and its option list is the old one with the first MSS value replaced |
| `Packet.TcpPacket.constructor` | crates/balansir-b4/src/packet.rs:21-64 | A packet that parses is stored with the offsets of its bytes |
| `Packet.ReadAfterPut` | crates/balansir-b4/src/packet.rs:135-200 | Reading written options gives them back and goes on with what follows |
| `Packet.PutAfterRead` | crates/balansir-b4/src/packet.rs:135-200 | Writing what was read, and the unread rest, gives the same bytes |
| `Packet.WithoutMembers` | crates/balansir-b4/src/packet.rs:163-222 | The filter keeps exactly the options of other kinds |
| `Checksum.FoldSum` | crates/balansir-b4/src/packet.rs:235-237 | The fold loop ends and computes the end-around carry sum |
| `Checksum.Ipv4Sum` | crates/balansir-b4/src/packet.rs:226-234 | The byte loop sums the header words without the checksum field, in 32 bits without overflow |
| `Checksum.FixIpv4Checksum` | crates/balansir-b4/src/packet.rs:226-240 | Afterwards the header always verifies, and nothing but the field changes |
| `Checksum.FixUdpChecksum` | crates/balansir-b4/src/packet.rs:384-416 | Afterwards header, data and pseudo-header always verify, and nothing but the field changes |
| `Checksum.SegmentSum` | crates/balansir-b4/src/packet.rs:481-513 | The word loop with its odd last byte sums a segment of up to 65535 bytes without overflow |
| `Checksum.FixTcpChecksum` | crates/balansir-b4/src/packet.rs:481-517 | Afterwards a receiver, who sums up to the IPv4 total length, accepts the segment if and only if the header fits that length and the old field plus the share of trailing bytes is a multiple of 0xffff; without trailing bytes, if and only if the field held 0 or 0xffff; the IPv4 header verifies; nothing else changes |
| `Checksum.BufferSum` | crates/balansir-b4/src/packet.rs:481-513 | The sum over the buffer is the sum a receiver checks plus the share of the trailing bytes, for even and odd lengths |
| `Checksum.FixStaleSegment` | crates/balansir-b4/src/packet.rs:481-517 | A packet whose TCP checksum is wrong afterwards because of its old field |
| `Checksum.FixTrailingSegment` | crates/balansir-b4/src/packet.rs:481-517 | A packet whose TCP checksum is wrong afterwards although its field was 0, because two bytes trail it |
| `Checksum.StaleComplement` | crates/balansir-b4/src/packet.rs:481-517 | A complement taken over a surplus verifies exactly if the surplus is a multiple of 0xffff |
| `Checksum.ComplementVerifies` | crates/balansir-b4/src/packet.rs:226-240 | A complement taken without the field always verifies |
| `Strategies.StepKeepsSegment` | crates/balansir-b4/src/engine.rs:526-542 | One strategy keeps addresses, ports, sequence number, flags, payload and the TCP checksum field, the packet parses, and what a receiver takes as payload is the same unless the packet was rebuilt |
| `Strategies.StrategiesKeepSegment` | crates/balansir-b4/src/engine.rs:363-375 | So does every sequence of strategies; a receiver takes the same payload if and only if the header fits the total length and, where an option was stripped, nothing trailed the packet |
| `Strategies.ExactReplacement` | crates/balansir-b4/src/engine.rs:363-375 | For packets without trailing bytes a replacement always keeps the payload on the wire, and its TCP checksum is right exactly if the old field was 0 or 0xffff |
| `Strategies.Apply` | crates/balansir-b4/src/strategies.rs:26-41 | Each strategy changes the packet in place as its list operation says and reports it, or reports that it read past the end, exactly when stripping does |
| `Strategies.FixChecksums` | crates/balansir-b4/src/engine.rs:371-373 | Only checksum fields change; the IPv4 header verifies, the TCP checksum does exactly under the condition above, and the payload on the wire is kept |
| `Strategies.Mutate` | crates/balansir-b4/src/strategies.rs:44-53 | The original is untouched; failure is reported exactly when stripping fails; a replacement exists exactly for a change, differs from the applied strategy in checksums only, and is the same segment with the exact conditions for wire payload and TCP checksum |
| `Strategies.CatchAllNeverShadows` | crates/balansir-b4/src/strategies.rs:68-94 | A catch-all profile at any position never changes the choice when a specific profile matches |
| `Engine.InterceptionLoop` | crates/balansir-b4/src/engine.rs:194-401 | For all events: one verdict per packet, in order, under its id, each the one its action calls for; exact counters; the loop ends early only at a packet on which an index fails, and that failure comes out of the scan itself |
| `Engine.Engine.Process` | crates/balansir-b4/src/engine.rs:219-401 | One packet: verdict, all six counters and the flow table are as the packet, the table and the configuration determine |
| `Engine.Engine.Decide` | crates/balansir-b4/src/engine.rs:313-401 | A matching set decides before any profile; its drop, change or pass is what is sent |
| `Engine.Engine.HandleUdp` | crates/balansir-b4/src/engine.rs:488-523 | UDP packets are accepted as they are; those decided for faking count twice |
| `Engine.ApplyProfile` | crates/balansir-b4/src/engine.rs:363-380 | The strategies of a profile on a copy: failure exactly if one of them strips and the packet cannot be stripped, found by running them; otherwise a replacement exactly if one of them changed something, equal to their composition up to checksums, and a good replacement of the packet |
| `Engine.CountersBalance` | crates/balansir-b4/src/engine.rs:194-401 | Over every run without a failed index: accepted + mutated + dropped = seen + faked UDP packets, seen counts the packets, dropped the drop verdicts, and errors are bounded by the events |
| `Engine.VerdictsAreSafe` | crates/balansir-b4/src/engine.rs:194-401 | Over every run a packet is dropped only if its set says so, and changed only by its set or, by the strategies of a configured profile, into the same segment with a valid IPv4 checksum and the exact conditions for wire payload and TCP checksum |
| `Engine.AckDisablesReassembly` | crates/balansir-b4/src/engine.rs:290-296 | For all traffic: a data packet with ACK is given only what it names alone, and any host given to a later packet of the flow is named by bytes that begin with a packet after it, or by that later packet alone |
| `Engine.SplitHelloExactly` | crates/balansir-b4/src/engine.rs:284-297 | For all events, while the flow is not idle and finds room: the packet that completes an in-order hello is given its host if no data packet of the flow has a flag of the mask 0x11; in every case exactly the parse since the first packet after the last such flag that begins like a record, or else of the last packet alone |
| `Engine.HostIsHeard` | crates/balansir-b4/src/engine.rs:284-297 | The same without order: a packet of a flow is given what the flow's span names, or else what it names alone |
| `Engine.EndedFlow` | crates/balansir-b4/src/engine.rs:290-296 | After a data packet with a flag of the mask the table holds nothing of its flow |
| `Engine.SplitInTwo` | crates/balansir-b4/src/engine.rs:284-297 | The same for two consecutive packets, with conditions on those packets alone |
| `Engine.SplitProbe` | crates/balansir-b4/src/engine.rs:284-297 | The probe for any host in two packets, with any flags: recognised if and only if the flags avoid the mask |
| `Engine.TableIsRun` | crates/balansir-b4/src/engine.rs:288-295 | The flow table of a run is the reassembler run on the segments of its inspected packets |
| `Engine.NineBytesPanic` | crates/balansir-b4/src/engine.rs:235-241 | Protocol detection fails exactly on nine-byte IPv4 packets |
| `Engine.PanicsExactly` | crates/balansir-b4/src/engine.rs:194-401 | The loop dies at a packet if and only if it is nine bytes of IPv4, or an inspected SYN without payload whose header ends in a lone option kind while the first catch-all profile with strategies strips |
| `Engine.DanglingSynPanics` | crates/balansir-b4/src/packet.rs:181 | A 44-byte SYN at which an engine with a stripping catch-all profile dies |
| `Netlink.AttrsRoundTrip` | crates/balansir-b4/src/nfqueue.rs:231-312 | Written attributes are visited exactly, in order, if and only if each holds at most 65531 bytes, in either byte order |
| `Netlink.LastWins` | crates/balansir-b4/src/nfqueue.rs:277-307 | The loop's packet is given field by field by the last usable attribute of each type |
| `Netlink.PacketRoundTrip` | crates/balansir-b4/src/nfqueue.rs:243-312 | A packet message built from attributes parses to the packet they describe |
| `Netlink.PushNla` | crates/balansir-b4/src/nfqueue.rs:231-240 | Appending with the padding loop gives the encoded attribute and keeps alignment |
| `Netlink.BuildNetlinkMsg` | crates/balansir-b4/src/nfqueue.rs:418-440 | Header, family body and attributes with their lengths |
| `Netlink.ParseNetfilterMessage` | crates/balansir-b4/src/nfqueue.rs:243-308 | On arbitrary bytes the parser ends, reads in bounds and computes the meaning above |
| `DnsName.DecodeExact` | crates/balansir-daemon/src/dns_plane.rs:120-176 | Both directions: decoding gives a name and position exactly when the labels spelled there, within the jump and length limits, normalise to it and the position follows the name |
| `DnsName.DecodeAdvances` | crates/balansir-daemon/src/dns_plane.rs:120-176 | The next position lies after the start and within the message |
| `DnsName.CompressionTransparent` | crates/balansir-daemon/src/dns_plane.rs:120-176 | Two encodings of the same labels, in any messages and with any pointers, decode to the same name or both fail as bad labels |
| `DnsName.KeyTellsLabelsExactly` | crates/balansir-daemon/src/dns_plane.rs:120-176 | A decoded key, cut at its dots, is the labels that were read, up to letter case, if and only if none of them holds a dot |
| `DnsName.SameKeySameLabels` | crates/balansir-daemon/src/dns_plane.rs:120-176 | Labels without dots decode to the same key if and only if they are equal up to letter case |
| `DnsName.DottedLabelCollides` | crates/balansir-daemon/src/dns_plane.rs:120-176 | One label with a dot and two labels that decode to the same key |
| `DnsName.ReadsOnce` | crates/balansir-daemon/src/dns_plane.rs:120-176 | A position spells at most one label sequence |
| `DnsName.EncodeDecode` | crates/balansir-daemon/src/dns_plane.rs:120-176 | Encoded host labels decode to the lower-case dotted name, wherever they stand |
| `DnsName.DecodeName` | crates/balansir-daemon/src/dns_plane.rs:120-176 | The loop with its visited list, jump count and return position ends on every message and computes that decoding, errors included |
| `DnsName.NormalizeStable` | crates/balansir-daemon/src/dns_plane.rs:75-90 | Normal forms are fixed points; case and a trailing dot do not matter |
| `DnsPlane.ParseAnswers` | crates/balansir-daemon/src/dns_plane.rs:179-222 | The walk over questions and answers equals the recursive meaning, with its errors |
| `DnsPlane.AnswersRoundTrip` | crates/balansir-daemon/src/dns_plane.rs:179-222 | A response written from questions and answers is read back record by record |
| `DnsPlane.RecordsRoundTrip` | crates/balansir-daemon/src/dns_plane.rs:195-222 | So are the records alone, at any position |
| `DnsPlane.ChaseExact` | crates/balansir-daemon/src/dns_plane.rs:249-266 | The chase yields a chain exactly if it starts at the query, follows the first CNAME of each name, has at most eight distinct names and stops only at a name without a CNAME, a repetition or the limit; an undecodable target gives no chain |
| `DnsPlane.CollectExact` | crates/balansir-daemon/src/dns_plane.rs:268-292 | The collected addresses are exactly the A and AAAA data owned by chain names, in order, and the TTL is the least of theirs |
| `DnsPlane.SelectionIsUnique` | crates/balansir-daemon/src/dns_plane.rs:268-292 | Only one list of record positions fits that description |
| `DnsPlane.ObserveExact` | crates/balansir-daemon/src/dns_plane.rs:242-297 | Both directions: an observation exists exactly for an untruncated error-free response to a valid query with such a chain and addresses, TTL clamped to 60..3600 |
| `DnsPlane.ObserveResponse` | crates/balansir-daemon/src/dns_plane.rs:242-297 | The method with its loops computes that observation |
| `DnsForwarder.DnsCache.Get` | crates/balansir-daemon/src/dns.rs:247-256 | A lookup answers the fresh entry of the query |
| `DnsForwarder.DnsCache.Put` | crates/balansir-daemon/src/dns.rs:258-271 | Insertion with purge and clear |
| `DnsForwarder.HitIsLastPut` | crates/balansir-daemon/src/dns.rs:247-271 | Over every run, with any clock: a hit is the most recent response put for that query, less than 30 s old; the size never exceeds the capacity |
| `DnsForwarder.RoomyCacheHits` | crates/balansir-daemon/src/dns.rs:247-271 | Conversely, with fewer distinct queries than capacity, a response put less than 30 s ago is hit |
| `DnsForwarder.ClassifyDomain` | crates/balansir-daemon/src/dns.rs:310-335 | Blocked exactly if the longest suffix of the name, cut at a label, that either list holds is on the block list and not on the allow list |
| `Geosite.GeositeStore.ParseCategorySource` | crates/balansir-b4/src/geosite.rs:202-254 | Recursion over any include graph ends and loads a set of files closed under includes up to those in progress |
| `Geosite.GeositeStore.LoadDir` | crates/balansir-b4/src/geosite.rs:174-200 | Afterwards the store is the old one with exactly the files reachable from the directory merged in |
| `Geosite.ReachIsClosed` | crates/balansir-b4/src/geosite.rs:228-235 | The reachable files are closed under includes |
| `Geosite.ReachIsLeast` | crates/balansir-b4/src/geosite.rs:228-235 | They are the least such set |
| `Geosite.OrderIrrelevant` | crates/balansir-b4/src/geosite.rs:174-200 | Directory order and repetition do not matter |
| `Geosite.LoadedMatches` | crates/balansir-b4/src/geosite.rs:45-61 | A category matches a host exactly if its built-in rules or its own file's rules do |
| `Diff.Build` | crates/balansir-common/src/diff.rs:10-46 | The two loops compute the plan: updates in desired order, then removals in actual order |
| `Diff.EmptyPlanIsConverged` | crates/balansir-common/src/plan.rs:60-83 | The plan is empty exactly if desired and actual agree on ids, actions and flows; the generation advances exactly otherwise |
| `Diff.FirstAfter` | crates/balansir-daemon/src/reconciliation/adapters.rs:50-140 | What executing any operations with any answers leaves under an id is given by the last operation on it that was taken; an update said to be there already is not |
| `Diff.ExecutorAdapter.ExecutePlan` | crates/balansir-daemon/src/reconciliation/adapters.rs:50-140 | The loop over the operations mirrors exactly what was applied or removed, and reports success exactly if nothing was refused |
| `Diff.PlannedEffect` | crates/balansir-common/src/diff.rs:10-46 | For any two states and any answers: unwanted ids go exactly if their removal was taken, ids with an applied update hold what some wish says, others are untouched |
| `Diff.Converges` | crates/balansir-common/src/diff.rs:10-46 | Executing the plan leads to agreement, and the next plan is empty, if and only if no two wishes for one id differ, every id with an unmet wish had an update applied, and every removal was taken |
| `Diff.AppliedConverges` | crates/balansir-common/src/diff.rs:10-46 | If every operation is applied, only contradicting wishes are in the way |
| `Diff.ConflictNeverConverges` | crates/balansir-common/src/diff.rs:10-46 | Two wishes for which it does not |
| `Coordinator.Coordinator.Reconcile` | crates/balansir-control/src/coordinator.rs:232-332 | For all outcomes of providers, store, executor and rollback: calls made, result, generation and final state |
| `Coordinator.Coordinator.Advance` | crates/balansir-control/src/coordinator.rs:178-183 | Events move the state by the transition table or not at all |
| `Coordinator.SettledIsStuck` | crates/balansir-control/src/coordinator.rs:51-88 | No event moves a machine in Done or Failed |
| `Coordinator.GenerationCountsCommits` | crates/balansir-control/src/coordinator.rs:232-332 | Over every sequence of calls the generation is one more than the number of committed cycles |
| `Coordinator.RunSettles` | crates/balansir-control/src/coordinator.rs:168-332 | After the first completed call the state is always Done or Failed, before it Idle |
| `Coordinator.RunIsDisciplined` | crates/balansir-control/src/coordinator.rs:232-332 | In every run each execution directly follows the save of the same plan's snapshot, and each rollback directly follows an execution and restores that snapshot |
| `Coordinator.RollbackExactly` | crates/balansir-control/src/coordinator.rs:211-229 | A cycle rolls back exactly if it executed and did not commit |
| `Coordinator.CommittedCycleQuiesces` | crates/balansir-control/src/coordinator.rs:232-332 | After a committed cycle, the next cycle on the resulting state succeeds without any call and keeps the generation if and only if the wishes are consistent and the executor took what the plan needed |
| `Coordinator.StaleAnswersNeverQuiesce` | crates/balansir-daemon/src/reconciliation/adapters.rs:131 | Runs of any length in which every cycle commits and raises the generation although nothing changes, because each answer is "already applied" |
| `Discovery.B4Discovery.Discover` | crates/balansir-daemon/src/b4_discovery.rs:211-299 | One pass: at most one probe, the chosen candidate, the new domain state and the answer; the trial counter is zero again |
| `Discovery.B4Discovery.ObserveBlocked` | crates/balansir-daemon/src/b4_discovery.rs:178-206 | A new domain starts with untried candidates, a known one is marked |
| `Discovery.ActiveWithheld` | crates/balansir-daemon/src/b4_discovery.rs:217-246 | Exactly when a pass answers nothing for a domain that has an active strategy |
| `Discovery.RunWithholdsActive` | crates/balansir-daemon/src/b4_discovery.rs:211-299 | With the default settings and the built-in candidates, a run of four successful passes after which the fifth answers nothing |
| `Discovery.ReprobeRefreshesExactly` | crates/balansir-daemon/src/b4_discovery.rs:275-294 | A successful probe of the active candidate refreshes it if and only if the threshold is negative |
| `Discovery.NeverRevalidated` | crates/balansir-daemon/src/b4_discovery.rs:211-299 | With a threshold of zero or more, a pass that leaves the same strategy active never moves its validation time |
| `Discovery.StepOk` | crates/balansir-daemon/src/b4_discovery.rs:178-299 | Every call keeps the budget, the spacing of probes, the agreement of records with the probe log, and that an active strategy names a measured candidate |
| `Discovery.DiscoveryIsBounded` | crates/balansir-daemon/src/b4_discovery.rs:178-299 | So does every sequence of calls with an arbitrary clock, and there are at most as many probes as calls |
| `Roles.ResolveExact` | crates/balansir-daemon/src/network_config.rs:106-163 | Both directions: a name is resolved exactly if one and only one live interface meets all criteria of a non-empty matcher |
| `Roles.ResolvePermuted` | crates/balansir-daemon/src/network_config.rs:106-163 | The order of interfaces does not matter |
| `Roles.ResolveRenamed` | crates/balansir-daemon/src/network_config.rs:106-163 | Hardware matchers commute with every renaming |
| `Roles.AutoAssignPermuted` | crates/balansir-daemon/src/network_config.rs:403-451 | Auto-detection does not depend on the order of distinctly named interfaces |
| `Roles.AutoAssignIsSound` | crates/balansir-daemon/src/network_config.rs:403-451 | Detected roles are different physical ports, the WAN has link, and an up default-route owner is the WAN |
| `Roles.ResolveRoles` | crates/balansir-daemon/src/network_config.rs:481-530 | The step-by-step resolution equals its case description, with every error |
| `Roles.RolesDiffer` | crates/balansir-daemon/src/network_config.rs:481-530 | Resolved WAN and LAN always differ |
| `Roles.RolesPermuted` | crates/balansir-daemon/src/network_config.rs:481-530 | The result does not depend on the order of interfaces |
| `Roles.RolesRenamed` | crates/balansir-daemon/src/network_config.rs:481-530 | With hardware-only matchers the result commutes with every injective renaming |

## Left out

- Engine.InterceptionLoop: what a strategy set does to a packet is an input, so a failure inside a set is not modelled; payloads are at most 65531 bytes, which is what one queue attribute can carry; counters do not wrap at 64 bits; waiting, stopping and logging are not modelled.
- Reassembly.TcpReassembler.FeedSegment: one clock reading serves a whole call, and the sweep counter does not wrap.
- DnsForwarder.DnsCache.Put: one clock reading serves a whole call; the code reads the clock for every entry it might purge and again for the new expiry.
- Strategies.Apply: packets are shorter than 65536 bytes, as one queue attribute carries them; so for Strategies.Mutate and Checksum.FixTcpChecksum.
- Discovery.B4Discovery.Discover: clock plus trial window stays below the 64-bit maximum, as the addition in the code needs; qualities are reals, so NaN is not modelled.
- DnsName.DecodeName: labels stay bytes. Replacing invalid UTF-8 is not modelled, since normalisation rejects every non-ASCII byte either way.
- Geosite.GeositeStore.LoadDir: files are given as lists of lines; trimming knows ASCII white space only; a file that cannot be read is an absent one.
- Coordinator.Coordinator.Reconcile: a call that finds another one running is an input; event delivery and time stamps are not modelled.
- Roles.ResolveRenamed: the renaming keeps an interface's other properties, and the error texts are not modelled.
- `fragment_tcp_payload` and `build_fake_quic_packet`: neither produces packets about which a useful preservation claim holds.
- Strategy set schema and matching (`set.rs`, `set_apply.rs`), configuration files and the built-in rule lists.
- `query_name`, `ingest` and the DNS registry; `assign_roles`; CIDR and MAC validation: small steps around what is modelled.
- Sockets, netlink input and output, the SOCKS5 relay, the forward loop, threads.
- The HTTP API, command line, web interface, QoS, MPTCP, Wi-Fi and UPnP managers.
