# ARP responder of rust-mynet, modelled in Dafny

rust-mynet opens a TAP interface with the address 10.0.0.1 and the MAC
00:20:91:50:e2:43. It then loops forever over the frames it reads.
This project models one iteration of that loop (`src/main.rs`, lines 140-180),
together with the wire layouts and enumerations the loop relies on:

- the receive buffer: 1500 zeroed bytes, overwritten by what the read delivered;
- classification by Ethernet type (bytes 12-13), then by ARP hardware type
  (bytes 14-15) and protocol type (bytes 16-17);
- copying the first 42 bytes of an accepted frame into a separate buffer with a loop;
- learning: the process-wide table maps (hardware type, sender IP) to the
  sender MAC, whatever the opcode, last writer wins;
- replying: a Request is rewritten in place into a Reply by seven field
  assignments in source order, and the 42 bytes are sent.

Modules:

- `Wrappers`: `Option`.
- `Bytes`: `u8`/`u16`, MAC and IPv4 addresses, big-endian 16-bit fields
  (`BE16`, `BE16Bytes`), field assignment on sequences (`PutBytes`) and on
  arrays (`WriteBytes`).
- `Protocol`: the `EtherType`, `HwType` and `OpCode` enumerations. Each has
  its wire code, and a decoder that maps every value not in the list to `Unknown`.
- `Layout`: `EthHdr<T>`, `ArpHdr<T>` and `Ipv4Arp` as datatypes, with the field
  offsets and parse/serialise round trips. The typed 42-byte frame is `ArpFrame`.
- `Responder`: the specification functions `Received`, `Accepted`, `Learn`,
  `Rewrite`, `ReplyHeader` and `Respond`. The class `ArpResponder` holds the
  table and the local addresses; its method `Step` is one loop iteration,
  proved against those functions. The lemmas state the properties below.

The reply is specified twice. `Rewrite` gives the in-place, sequential byte
writes. `ReplyHeader` gives the field-level result.
`RewriteIsReplyHeader` proves the two agree: every read happens before the
field it reads is overwritten.

The reception algorithm of RFC 826 answers a request only when the receiver
is the target protocol address. The code does not check the target IP
(`src/main.rs:162`). It answers every Ethernet/IPv4 request, always with
10.0.0.1 as the sender IP. The model follows the code. The code also never
looks at the address-length bytes 18-19 (`src/main.rs:150-151`), and the
model does not either.

## Model

| member | source | states |
|---|---|---|
| Bytes.BE16 | src/main.rs:23-43 | a 16-bit field is read in network order: the first byte is the high byte, the second the low byte |
| Bytes.BE16Bytes | src/main.rs:23-43 | the two bytes written for a 16-bit value read back as that value |
| Bytes.BE16Is | src/main.rs:23-43 | a 16-bit field equals v exactly when its two bytes are those of v |
| Bytes.PutBytes | src/main.rs:163-172 | a field assignment changes exactly the field's bytes, to the new value, and keeps every other byte |
| Bytes.WriteBytes | src/main.rs:163-172 | the in-place field assignment on the buffer has the effect of PutBytes |
| Protocol.EtherTypeCode | src/main.rs:28-43 | the wire code of an Ethernet type; only Unknown has code 0 |
| Protocol.EtherTypeOf | src/main.rs:28-43 | an ethertype decodes to the variant whose code it is (IPv4 0x0800, ARP 0x0806, IPv6 0x86dd), else to Unknown |
| Protocol.HwTypeCode | src/main.rs:71-77 | the wire code of a hardware type; only Unknown has code 0 |
| Protocol.HwTypeOf | src/main.rs:71-77 | a hardware type decodes to Ethernet exactly for 0x0001, else to Unknown |
| Protocol.OpCodeCode | src/main.rs:79-86 | the wire code of an opcode; only Unknown has code 0 |
| Protocol.OpCodeOf | src/main.rs:79-86 | an opcode decodes to Request for 0x0001, Reply for 0x0002, else to Unknown |
| Protocol.EnumRoundTrips | src/main.rs:28-103 | encoding then decoding gives back every variant, Unknown included |
| Protocol.CodesInjective | src/main.rs:28-103 | for each of the three enumerations, distinct variants have distinct wire codes |
| Layout.ParseEth | src/main.rs:145 | viewing a buffer as an Ethernet header leaves everything after byte 14 as the payload |
| Layout.EthBytes | src/main.rs:15-21 | an Ethernet header is 14 bytes followed by its payload, without padding |
| Layout.ParseArp | src/main.rs:148 | viewing an Ethernet payload as an ARP header leaves everything after byte 8 as the data |
| Layout.ArpBytes | src/main.rs:45-54 | an ARP header is 8 bytes followed by its data, without padding |
| Layout.ParseIpv4Arp | src/main.rs:157 | the 20-byte address block viewed as sender MAC, sender IP, target MAC, target IP serialises back to the same bytes |
| Layout.Ipv4ArpBytes | src/main.rs:59-66 | the address block is exactly 20 bytes |
| Layout.ParseArpFrame | src/main.rs:157 | the 42-byte buffer viewed as the nested frame serialises back to the same bytes |
| Layout.ArpFrameBytes | src/main.rs:174 | the nested frame converts to exactly 42 bytes |
| Layout.EthBytesParse | src/main.rs:15-21 | an Ethernet header parsed at offsets 0, 6, 12, 14 serialises back to the same bytes |
| Layout.ParseEthBytes | src/main.rs:15-21 | a serialised Ethernet header parses back to the same fields |
| Layout.ArpBytesParse | src/main.rs:45-54 | an ARP header parsed at offsets 0, 2, 4, 5, 6, 8 serialises back to the same bytes |
| Layout.ParseArpBytes | src/main.rs:45-54 | a serialised ARP header parses back to the same fields |
| Layout.Ipv4ArpRoundTrips | src/main.rs:59-66 | the 20-byte address block (sender MAC, sender IP, target MAC, target IP) round-trips both ways |
| Layout.ArpFrameBytesParse | src/main.rs:157 | viewing the 42-byte buffer as the nested frame and back loses no byte |
| Layout.ParseArpFrameBytes | src/main.rs:174 | converting the nested frame to 42 bytes and back loses no field |
| Layout.ArpFrameOffsets | src/main.rs:15-66 | each field of the nested frame is at its byte offset: MACs at 0, 6, 22, 32; types at 12, 14, 16; sizes at 18, 19; opcode at 20; IPs at 28, 38 |
| Responder.Received | src/main.rs:141-143 | the receive buffer is 1500 bytes: what was read, then zeros |
| Responder.IsArp | src/main.rs:145-147 | the ethertype decodes to ARP exactly when bytes 12-13 are 08 06 |
| Responder.IsEthernetIpv4 | src/main.rs:148-151 | the hardware and protocol types decode to Ethernet and IPv4 exactly when bytes 14-17 are 00 01 08 00 |
| Responder.Accepted | src/main.rs:145-151 | an accepted frame has ethertype ARP and hardware and protocol types Ethernet and IPv4 (both directions at byte level in AcceptedIffBytes) |
| Responder.ArpView | src/main.rs:152-157 | the typed view of the copied 42 bytes serialises back to exactly those bytes |
| Responder.Learn | src/main.rs:159-160 | observing a frame keeps every key, can add only (Ethernet, bytes 28-31) and changes no other entry |
| Responder.Rewrite | src/main.rs:163-172 | the seven writes give 42 bytes with bytes 12-19 unchanged and the local MAC as both Ethernet and ARP sender |
| Responder.ReplyHeader | src/main.rs:163-172 | the reply has opcode Reply, keeps the ethertype, types and sizes, names the local MAC and IP as sender and the requester's IP as target |
| Responder.Respond | src/main.rs:147-176 | a frame is sent only for an accepted frame, and it is 42 bytes long |
| Responder.ArpResponder.constructor | src/main.rs:138 | the table starts empty |
| Responder.ArpResponder.Step | src/main.rs:140-180 | one iteration: the table becomes Learn of the received buffer and the frame sent is Respond of it, via a 42-byte copy loop and seven in-place writes |
| Responder.NonArpIsInert | src/main.rs:145-147 | a frame whose bytes 12-13 are not 08 06 leaves the table unchanged and gets no reply |
| Responder.ShortReadIsInert | src/main.rs:141-147 | a read of at most 12 bytes leaves a zero ethertype, so nothing is learned or sent |
| Responder.AcceptedIffBytes | src/main.rs:147-151 | a frame is accepted iff bytes 12-13 are 08 06, bytes 14-15 are 00 01 and bytes 16-17 are 08 00; bytes 18-19 play no part |
| Responder.AcceptedIffView | src/main.rs:147-151 | acceptance is ethertype ARP, hardware type Ethernet and protocol type IPv4 in the typed view |
| Responder.LearnRecordsSender | src/main.rs:159-160 | an accepted frame maps (Ethernet, bytes 28-31) to bytes 22-27, whatever the opcode, and leaves every other key alone; other frames change nothing |
| Responder.LearnIdempotent | src/main.rs:159-160 | observing a frame twice gives the same table as observing it once |
| Responder.LearnNeverForgets | src/main.rs:138-160 | no entry is ever removed, and only the observed key can change value |
| Responder.LearnLastWriterWins | src/main.rs:159-160 | of two accepted frames with the same sender IP, the later one's MAC is kept |
| Responder.RespondIffRequest | src/main.rs:162 | an accepted frame is answered iff its opcode bytes 20-21 are 00 01 |
| Responder.RespondIffBytes | src/main.rs:147-162 | any frame is answered iff bytes 12-17 are 08 06 00 01 08 00 and bytes 20-21 are 00 01 |
| Responder.RewriteFields | src/main.rs:163-172 | after the seven writes: dest = old Ethernet source, source = local MAC, bytes 12-19 unchanged, opcode 00 02, sender = local MAC and IP, target = old sender MAC and IP |
| Responder.RewriteIsReplyHeader | src/main.rs:163-174 | the sequential byte rewrite equals the field-level reply |
| Responder.ReplyContents | src/main.rs:152-176 | a sent frame is exactly 42 bytes, built from the first 42 received bytes, with every range as listed above |
| Responder.ReplyIsNotAnswered | src/main.rs:162-176 | a sent frame read back in is accepted but not answered, and teaches the table only (Ethernet, local IP) to local MAC |
| Responder.ExampleExchange | src/main.rs:126-176 | a broadcast request from aa:bb:cc:dd:ee:ff / 10.0.0.5 for 10.0.0.1 gets the expected reply, and the requester is learned |

## Left out

- Creating the TAP device, naming it, setting its MAC, bringing it up and
  adding its address (`src/main.rs:123-136`). These are calls into the
  `tuntap` crate and console output. The local MAC and IP are the constants
  `LocalMac` and `LocalIp`, and `ArpResponder` takes them as parameters.
- Formatting the address as a dotted-quad string (`src/main.rs:127-131`). This is only configuration.
- `tap.read` and `tap.write`, and the panics of their `unwrap`
  (`src/main.rs:143, 176`). The bytes read are a parameter of `Step`; as in the
  source, the read's length is not used. A read longer than the buffer keeps
  its first 1500 bytes. The frame written is `Step`'s result.
- The endless `loop`: `Step` is one iteration; a run is a sequence of calls on the same object.
- `mem::transmute` over `#[repr(C, packed)]` structs. The model uses
  explicit big-endian reads and writes at fixed offsets instead. In Rust,
  transmuting a value with no listed discriminant into an enum is undefined
  behaviour. The model decodes such values to `Unknown`.
- The `cfg(target_endian)` copies of the enumerations: one big-endian decoding
  is modelled. On both hosts it compares the same wire bytes.
- The commented-out `data_format` hex dumper (`src/main.rs:105-120`). It is dead code.
- ICMP echo replies and the Internet checksum. They do not appear in
  `src/main.rs`, so there is no code to model. IPv4 frames are dropped like any other non-ARP frame.
- The hashing and capacity of the process-wide `HashMap`. It is a `map`
  field; nothing in the source reads it back, so only its contents matter.
