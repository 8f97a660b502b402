/**
 The ARP responder: one iteration of the receive loop. A frame is read
 into a zeroed 1500-byte buffer and classified by its Ethernet type. An
 ARP message whose hardware type is Ethernet and whose protocol type is
 IPv4 is copied into a 42-byte buffer; its sender is recorded in the
 process-wide table (key: hardware type and sender IP, value: sender MAC),
 and if it is a request the 42-byte buffer is rewritten in place into a
 reply, which is sent. Every other frame is dropped without effect.
 */
module Responder {
  import opened Wrappers
  import opened Bytes
  import opened Protocol
  import opened Layout

  /** Capacity of the receive buffer. */
  const MTU: nat := 1500

  /** The interface's configured addresses: 00:20:91:50:e2:43 and 10.0.0.1. */
  const LocalMac: MacAddr := [0x00, 0x20, 0x91, 0x50, 0xe2, 0x43]
  const LocalIp: Ipv4Addr := [10, 0, 0, 1]

  /** What the responder has learned: (hardware type, sender IP) to sender MAC. */
  type ArpTable = map<(HwType, Ipv4Addr), MacAddr>

  /** The receive buffer after a read of `data`: zeroed, then the first
      bytes overwritten by what was read, at most its capacity. */
  function Received(data: seq<u8>): (b: seq<u8>)
    ensures |b| == MTU
    ensures forall i :: 0 <= i < MTU ==> b[i] == if i < |data| then data[i] else 0
  {
    if |data| >= MTU then data[..MTU] else data + seq(MTU - |data|, _ => 0)
  }

  /** The Ethernet type says ARP. */
  predicate IsArp(raw: seq<u8>)
    requires |raw| >= EthHdrLen
    ensures IsArp(raw) <==> raw[12] == 0x08 && raw[13] == 0x06
  {
    EtherTypeOf(ParseEth(raw).ethertype) == Arp
  }

  /** The ARP header announces Ethernet hardware addresses and IPv4 protocol
      addresses; the address lengths are not looked at. */
  predicate IsEthernetIpv4(raw: seq<u8>)
    requires |raw| >= EthHdrLen + ArpHdrLen
    ensures IsEthernetIpv4(raw) <==>
      raw[14] == 0x00 && raw[15] == 0x01 && raw[16] == 0x08 && raw[17] == 0x00
  {
    var arp := ParseArp(ParseEth(raw).payload);
    HwTypeOf(arp.hwtype) == Ethernet && EtherTypeOf(arp.protype) == Ipv4
  }

  /** The frame reaches the learning step. */
  predicate Accepted(raw: seq<u8>)
    requires |raw| >= ArpFrameLen
    ensures Accepted(raw) ==> raw[12] == 0x08 && raw[13] == 0x06 && raw[15] == 0x01 && raw[16] == 0x08
  {
    IsArp(raw) && IsEthernetIpv4(raw)
  }

  /** The typed view of the first 42 bytes. */
  function ArpView(raw: seq<u8>): (f: ArpFrame)
    requires |raw| >= ArpFrameLen
    ensures ArpFrameBytes(f) == raw[..ArpFrameLen]
  {
    ParseArpFrame(raw[..ArpFrameLen])
  }

  /** The table after observing `raw`: an accepted frame records its sender,
      whatever its opcode; any other frame leaves the table as it was. */
  function Learn(table: ArpTable, raw: seq<u8>): (r: ArpTable)
    requires |raw| >= ArpFrameLen
    ensures table.Keys <= r.Keys <= table.Keys + {(HwType.Ethernet, raw[28..32])}
    ensures forall k :: k in table && k != (HwType.Ethernet, raw[28..32]) ==> r[k] == table[k]
  {
    if Accepted(raw) then
      var f := ArpView(raw);
      AcceptedIffView(raw);
      ArpFrameOffsets(raw[..ArpFrameLen]);
      assert raw[..ArpFrameLen][SenderIpOff..SenderIpOff + 4] == raw[28..32];
      table[(HwTypeOf(f.payload.hwtype), f.payload.data.sip) := f.payload.data.smac]
    else
      table
  }

  /** The in-place rewrite of a 42-byte request into a reply: seven field
      assignments, in order, each reading the buffer as left by the previous ones. */
  function Rewrite(b: seq<u8>, mac: MacAddr, ip: Ipv4Addr): (r: seq<u8>)
    requires |b| == ArpFrameLen
    ensures |r| == ArpFrameLen
    ensures r[EtherTypeOff..OpCodeOff] == b[EtherTypeOff..OpCodeOff]
    ensures r[EthSmacOff..EthSmacOff + 6] == r[SenderMacOff..SenderMacOff + 6] == mac
  {
    var b1 := PutBytes(b, EthDmacOff, b[EthSmacOff..EthSmacOff + 6]);
    var b2 := PutBytes(b1, EthSmacOff, mac);
    var b3 := PutBytes(b2, OpCodeOff, BE16Bytes(OpCodeCode(Reply)));
    var b4 := PutBytes(b3, TargetMacOff, b3[SenderMacOff..SenderMacOff + 6]);
    var b5 := PutBytes(b4, SenderMacOff, mac);
    var b6 := PutBytes(b5, TargetIpOff, b5[SenderIpOff..SenderIpOff + 4]);
    PutBytes(b6, SenderIpOff, ip)
  }

  /** The reply at the level of fields: back to the requester, from us,
      opcode Reply, the requester as target and ourselves as sender. */
  function ReplyHeader(f: ArpFrame, mac: MacAddr, ip: Ipv4Addr): (r: ArpFrame)
    ensures OpCodeOf(r.payload.opcode) == Reply
    ensures r.ethertype == f.ethertype && r.payload.hwtype == f.payload.hwtype
    ensures r.payload.protype == f.payload.protype
    ensures r.payload.hwsize == f.payload.hwsize && r.payload.prosize == f.payload.prosize
    ensures r.smac == r.payload.data.smac == mac && r.payload.data.sip == ip
    ensures r.payload.data.dip == f.payload.data.sip
  {
    var d := f.payload.data;
    f.(dmac := f.smac, smac := mac,
       payload := f.payload.(opcode := OpCodeCode(Reply), data := Ipv4Arp(mac, ip, d.smac, d.sip)))
  }

  /** The frame sent in answer to `raw`, if any: only accepted requests are answered. */
  function Respond(raw: seq<u8>, mac: MacAddr, ip: Ipv4Addr): (r: Option<seq<u8>>)
    requires |raw| >= ArpFrameLen
    ensures r.Some? ==> Accepted(raw) && |r.value| == ArpFrameLen
  {
    if Accepted(raw) && OpCodeOf(ArpView(raw).payload.opcode) == Request then
      Some(Rewrite(raw[..ArpFrameLen], mac, ip))
    else
      None
  }

  /** The process-wide responder state: the learned table and the local addresses. */
  class ArpResponder {
    const mac: MacAddr
    const ip: Ipv4Addr
    var table: ArpTable

    /** The table starts empty. */
    constructor (mac: MacAddr, ip: Ipv4Addr)
      ensures this.mac == mac && this.ip == ip
      ensures table == map[]
    {
      this.mac := mac;
      this.ip := ip;
      table := map[];
    }

    /** One iteration of the receive loop, for the bytes `frame` that the read delivered. */
    method Step(frame: seq<u8>) returns (reply: Option<seq<u8>>)
      modifies this
      ensures table == Learn(old(table), Received(frame))
      ensures reply == Respond(Received(frame), mac, ip)
    {
      var raw := Received(frame);
      reply := None;
      var eth := ParseEth(raw);
      if EtherTypeOf(eth.ethertype) == Arp {
        var arp := ParseArp(eth.payload);
        if HwTypeOf(arp.hwtype) == Ethernet && EtherTypeOf(arp.protype) == Ipv4 {
          var b := new u8[ArpFrameLen](_ => 0);
          for i := 0 to ArpFrameLen
            invariant forall j :: 0 <= j < i ==> b[j] == raw[j]
            invariant table == old(table)
          {
            b[i] := raw[i];
          }
          assert b[..] == raw[..ArpFrameLen];
          var f := ParseArpFrame(b[..]);
          assert f == ArpView(raw);
          table := table[(HwTypeOf(f.payload.hwtype), f.payload.data.sip) := f.payload.data.smac];
          assert table == Learn(old(table), raw);
          if OpCodeOf(f.payload.opcode) == Request {
            WriteBytes(b, EthDmacOff, b[EthSmacOff..EthSmacOff + 6]);
            WriteBytes(b, EthSmacOff, mac);
            WriteBytes(b, OpCodeOff, BE16Bytes(OpCodeCode(Reply)));
            WriteBytes(b, TargetMacOff, b[SenderMacOff..SenderMacOff + 6]);
            WriteBytes(b, SenderMacOff, mac);
            WriteBytes(b, TargetIpOff, b[SenderIpOff..SenderIpOff + 4]);
            WriteBytes(b, SenderIpOff, ip);
            reply := Some(b[..]);
          }
        }
      }
    }
  }

  // ---------------------------------------------------------------------
  // Classification, byte by byte

  /** A frame is handled only if bytes 12-13 are 08 06 (ethertype ARP);
      any other frame changes nothing and is not answered. */
  lemma NonArpIsInert(table: ArpTable, raw: seq<u8>, mac: MacAddr, ip: Ipv4Addr)
    requires |raw| >= ArpFrameLen
    requires raw[12..14] != [0x08, 0x06]
    ensures Learn(table, raw) == table
    ensures Respond(raw, mac, ip) == None
  {
  }

  /** A read of at most 12 bytes leaves bytes 12-13 of the zeroed buffer
      at 0, which is no Ethernet type the responder handles. */
  lemma ShortReadIsInert(table: ArpTable, data: seq<u8>, mac: MacAddr, ip: Ipv4Addr)
    requires |data| <= EtherTypeOff
    ensures Learn(table, Received(data)) == table
    ensures Respond(Received(data), mac, ip) == None
  {
  }

  /** A frame is accepted exactly when its ethertype bytes are 08 06, its
      hardware type bytes 00 01 and its protocol type bytes 08 00; the
      address lengths at bytes 18-19 play no part. */
  lemma AcceptedIffBytes(raw: seq<u8>)
    requires |raw| >= ArpFrameLen
    ensures Accepted(raw) <==>
      raw[12..14] == [0x08, 0x06] && raw[14..16] == [0x00, 0x01] && raw[16..18] == [0x08, 0x00]
  {
    BE16Is(raw, EtherTypeOff, EtherTypeCode(Arp));
    BE16Is(raw, HwTypeOff, HwTypeCode(Ethernet));
    BE16Is(raw, ProTypeOff, EtherTypeCode(Ipv4));
    var eth := ParseEth(raw);
    assert eth.ethertype == BE16(raw, EtherTypeOff);
    assert ParseArp(eth.payload).hwtype == BE16(raw, HwTypeOff) by {
      assert eth.payload[0..2] == raw[14..16];
    }
    assert ParseArp(eth.payload).protype == BE16(raw, ProTypeOff) by {
      assert eth.payload[2..4] == raw[16..18];
    }
  }

  // ---------------------------------------------------------------------
  // Learning

  /** An accepted frame maps (Ethernet, sender IP at bytes 28-31) to the
      sender MAC at bytes 22-27, whatever its opcode, and leaves every other
      key as it was; a frame that is not accepted changes nothing. */
  lemma LearnRecordsSender(table: ArpTable, raw: seq<u8>)
    requires |raw| >= ArpFrameLen
    ensures var t := Learn(table, raw);
      && (Accepted(raw) ==> t == table[(Ethernet, raw[SenderIpOff..SenderIpOff + 4]) := raw[SenderMacOff..SenderMacOff + 6]])
      && (!Accepted(raw) ==> t == table)
  {
    if Accepted(raw) {
      var b := raw[..ArpFrameLen];
      ArpFrameOffsets(b);
      assert b[SenderIpOff..SenderIpOff + 4] == raw[SenderIpOff..SenderIpOff + 4];
      assert b[SenderMacOff..SenderMacOff + 6] == raw[SenderMacOff..SenderMacOff + 6];
      assert ArpView(raw).payload.hwtype == ParseArp(ParseEth(raw).payload).hwtype;
    }
  }

  /** Observing the same frame twice leaves the table as observing it once. */
  lemma LearnIdempotent(table: ArpTable, raw: seq<u8>)
    requires |raw| >= ArpFrameLen
    ensures Learn(Learn(table, raw), raw) == Learn(table, raw)
  {
  }

  /** Entries are never removed, and only the observed key can change. */
  lemma LearnNeverForgets(table: ArpTable, raw: seq<u8>, k: (HwType, Ipv4Addr))
    requires |raw| >= ArpFrameLen
    requires k in table
    ensures k in Learn(table, raw)
    ensures k != (Ethernet, raw[SenderIpOff..SenderIpOff + 4]) ==> Learn(table, raw)[k] == table[k]
  {
    LearnRecordsSender(table, raw);
  }

  /** Last writer wins: of two accepted frames from the same sender IP, the
      table keeps the MAC of the later one. */
  lemma LearnLastWriterWins(table: ArpTable, first: seq<u8>, second: seq<u8>)
    requires |first| >= ArpFrameLen && |second| >= ArpFrameLen
    requires Accepted(first) && Accepted(second)
    requires first[SenderIpOff..SenderIpOff + 4] == second[SenderIpOff..SenderIpOff + 4]
    ensures Learn(Learn(table, first), second) == Learn(table, second)
  {
    LearnRecordsSender(table, first);
    LearnRecordsSender(Learn(table, first), second);
    LearnRecordsSender(table, second);
  }

  // ---------------------------------------------------------------------
  // Replying

  /** An accepted frame is answered exactly when its opcode bytes 20-21 are 00 01. */
  lemma RespondIffRequest(raw: seq<u8>, mac: MacAddr, ip: Ipv4Addr)
    requires |raw| >= ArpFrameLen
    requires Accepted(raw)
    ensures Respond(raw, mac, ip).Some? <==> raw[20..22] == [0x00, 0x01]
  {
  }

  /** Any frame is answered exactly when bytes 12-17 are 08 06 00 01 08 00
      (ARP, Ethernet, IPv4) and bytes 20-21 are 00 01 (Request): a wrong
      hardware or protocol type gets no reply, whatever the opcode. */
  lemma RespondIffBytes(raw: seq<u8>, mac: MacAddr, ip: Ipv4Addr)
    requires |raw| >= ArpFrameLen
    ensures Respond(raw, mac, ip).Some? <==>
      && raw[12..14] == [0x08, 0x06] && raw[14..16] == [0x00, 0x01] && raw[16..18] == [0x08, 0x00]
      && raw[20..22] == [0x00, 0x01]
  {
    AcceptedIffBytes(raw);
    if Accepted(raw) {
      RespondIffRequest(raw, mac, ip);
    }
  }

  /** The bytes of the rewritten frame, range by range. */
  lemma RewriteFields(b: seq<u8>, mac: MacAddr, ip: Ipv4Addr)
    requires |b| == ArpFrameLen
    ensures var r := Rewrite(b, mac, ip);
      && |r| == ArpFrameLen
      && r[EthDmacOff..EthDmacOff + 6] == b[EthSmacOff..EthSmacOff + 6]
      && r[EthSmacOff..EthSmacOff + 6] == mac
      && r[EtherTypeOff..OpCodeOff] == b[EtherTypeOff..OpCodeOff]
      && r[OpCodeOff..OpCodeOff + 2] == [0x00, 0x02]
      && r[SenderMacOff..SenderMacOff + 6] == mac
      && r[SenderIpOff..SenderIpOff + 4] == ip
      && r[TargetMacOff..TargetMacOff + 6] == b[SenderMacOff..SenderMacOff + 6]
      && r[TargetIpOff..TargetIpOff + 4] == b[SenderIpOff..SenderIpOff + 4]
  {
  }

  /** The byte-by-byte rewrite in source order is the field-level reply:
      every read happens before the field it reads is overwritten. */
  lemma RewriteIsReplyHeader(b: seq<u8>, mac: MacAddr, ip: Ipv4Addr)
    requires |b| == ArpFrameLen
    ensures ParseArpFrame(Rewrite(b, mac, ip)) == ReplyHeader(ParseArpFrame(b), mac, ip)
  {
    var r := Rewrite(b, mac, ip);
    RewriteFields(b, mac, ip);
    ArpFrameOffsets(b);
    ArpFrameOffsets(r);
    assert r[OpCodeOff..OpCodeOff + 2] == BE16Bytes(OpCodeCode(Reply));
    BE16Is(r, OpCodeOff, OpCodeCode(Reply));
    assert r[EtherTypeOff..EtherTypeOff + 2] == b[EtherTypeOff..EtherTypeOff + 2];
    assert r[HwTypeOff..HwTypeOff + 2] == b[HwTypeOff..HwTypeOff + 2];
    assert r[ProTypeOff..ProTypeOff + 2] == b[ProTypeOff..ProTypeOff + 2];
    assert r[HwSizeOff] == b[HwSizeOff] && r[ProSizeOff] == b[ProSizeOff];
  }

  /** What an answered frame looks like: 42 bytes, to the requester's
      Ethernet source, from the local MAC, opcode Reply, the local addresses
      as sender, the requester's as target, and bytes 12-19 as received. */
  lemma ReplyContents(raw: seq<u8>, mac: MacAddr, ip: Ipv4Addr)
    requires |raw| >= ArpFrameLen
    requires Respond(raw, mac, ip).Some?
    ensures var r := Respond(raw, mac, ip).value;
      && |r| == ArpFrameLen
      && r[0..6] == raw[6..12]
      && r[6..12] == mac
      && r[12..20] == raw[12..20]
      && r[20..22] == [0x00, 0x02]
      && r[22..28] == mac
      && r[28..32] == ip
      && r[32..38] == raw[22..28]
      && r[38..42] == raw[28..32]
  {
    var b := raw[..ArpFrameLen];
    RewriteFields(b, mac, ip);
    assert b[6..12] == raw[6..12] && b[12..20] == raw[12..20];
    assert b[22..28] == raw[22..28] && b[28..32] == raw[28..32];
  }

  /** Replies never trigger replies: fed back in, an outgoing frame is
      accepted, is not answered, and only teaches the table the local addresses. */
  lemma ReplyIsNotAnswered(table: ArpTable, raw: seq<u8>, mac: MacAddr, ip: Ipv4Addr, mac': MacAddr, ip': Ipv4Addr)
    requires |raw| >= ArpFrameLen
    requires Respond(raw, mac, ip).Some?
    ensures var echo := Received(Respond(raw, mac, ip).value);
      && Respond(echo, mac', ip') == None
      && Learn(table, echo) == table[(Ethernet, ip) := mac]
  {
    var r := Respond(raw, mac, ip).value;
    var echo := Received(r);
    ReplyContents(raw, mac, ip);
    assert echo[..ArpFrameLen] == r;
    AcceptedIffBytes(raw);
    assert echo[12..20] == r[12..20] == raw[12..20];
    assert echo[12..14] == raw[12..14] && echo[14..16] == raw[14..16] && echo[16..18] == raw[16..18];
    AcceptedIffBytes(echo);
    assert echo[20..22] == [0x00, 0x02];
    RespondIffRequest(echo, mac', ip');
    LearnRecordsSender(table, echo);
    assert echo[SenderIpOff..SenderIpOff + 4] == ip && echo[SenderMacOff..SenderMacOff + 6] == mac;
  }

  /** The frame is accepted exactly when its typed view announces ARP,
      Ethernet hardware and IPv4 protocol addresses. */
  lemma AcceptedIffView(raw: seq<u8>)
    requires |raw| >= ArpFrameLen
    ensures var f := ArpView(raw);
      Accepted(raw) <==>
        EtherTypeOf(f.ethertype) == Arp && HwTypeOf(f.payload.hwtype) == Ethernet && EtherTypeOf(f.payload.protype) == Ipv4
  {
  }

  // ---------------------------------------------------------------------
  // A worked exchange

  const Broadcast: MacAddr := [0xff, 0xff, 0xff, 0xff, 0xff, 0xff]
  const Unset: MacAddr := [0x00, 0x00, 0x00, 0x00, 0x00, 0x00]
  const RequesterMac: MacAddr := [0xaa, 0xbb, 0xcc, 0xdd, 0xee, 0xff]
  const RequesterIp: Ipv4Addr := [10, 0, 0, 5]

  /** A broadcast request from aa:bb:cc:dd:ee:ff / 10.0.0.5 asking who has 10.0.0.1. */
  const ExampleRequest: ArpFrame :=
    EthHdr(Broadcast, RequesterMac, EtherTypeCode(Arp),
           ArpHdr(HwTypeCode(Ethernet), EtherTypeCode(Ipv4), 6, 4, OpCodeCode(Request),
                  Ipv4Arp(RequesterMac, RequesterIp, Unset, LocalIp)))

  /** The answer from the configured addresses back to the requester. */
  const ExampleReply: ArpFrame :=
    EthHdr(RequesterMac, LocalMac, EtherTypeCode(Arp),
           ArpHdr(HwTypeCode(Ethernet), EtherTypeCode(Ipv4), 6, 4, OpCodeCode(Reply),
                  Ipv4Arp(LocalMac, LocalIp, RequesterMac, RequesterIp)))

  /** Reading the example request yields the example reply and teaches the
      table that 10.0.0.5 is at aa:bb:cc:dd:ee:ff. */
  lemma ExampleExchange(table: ArpTable)
    ensures var raw := Received(ArpFrameBytes(ExampleRequest));
      && Respond(raw, LocalMac, LocalIp) == Some(ArpFrameBytes(ExampleReply))
      && Learn(table, raw) == table[(Ethernet, RequesterIp) := RequesterMac]
  {
    var bytes := ArpFrameBytes(ExampleRequest);
    var raw := Received(bytes);
    assert raw[..ArpFrameLen] == bytes;
    ParseArpFrameBytes(ExampleRequest);
    assert ArpView(raw) == ExampleRequest;
    AcceptedIffView(raw);
    var r := Rewrite(bytes, LocalMac, LocalIp);
    RewriteIsReplyHeader(bytes, LocalMac, LocalIp);
    assert ParseArpFrame(r) == ExampleReply;
    ArpFrameBytesParse(r);
  }
}
