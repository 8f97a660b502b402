/**
 Byte-exact layouts of the Ethernet header, the ARP header and the
 Ethernet/IPv4 ARP address block. Each header is generic in what follows
 it, like the Rust structs EthHdr<T> and ArpHdr<T> of src/main.rs;
 parsing splits a byte sequence at fixed offsets and serialising
 concatenates the fields back, with no padding.
 Multi-byte numeric fields keep their wire value; the enumerations are
 decoded from them by the functions of module Protocol.
 */
module Layout {
  import opened Bytes

  datatype EthHdr<T> = EthHdr(dmac: MacAddr, smac: MacAddr, ethertype: u16, payload: T)

  datatype ArpHdr<T> = ArpHdr(hwtype: u16, protype: u16, hwsize: u8, prosize: u8, opcode: u16, data: T)

  /** The address block of an Ethernet/IPv4 ARP message. */
  datatype Ipv4Arp = Ipv4Arp(smac: MacAddr, sip: Ipv4Addr, dmac: MacAddr, dip: Ipv4Addr)

  /** An Ethernet frame carrying an Ethernet/IPv4 ARP message. */
  type ArpFrame = EthHdr<ArpHdr<Ipv4Arp>>

  const EthHdrLen: nat := 14
  const ArpHdrLen: nat := 8
  const Ipv4ArpLen: nat := 20
  /** 14 + 8 + 20: the length of an ARP frame and of every reply. */
  const ArpFrameLen: nat := 42

  // Offsets of the fields within a frame.
  const EthDmacOff: nat := 0
  const EthSmacOff: nat := 6
  const EtherTypeOff: nat := 12
  const HwTypeOff: nat := 14
  const ProTypeOff: nat := 16
  const HwSizeOff: nat := 18
  const ProSizeOff: nat := 19
  const OpCodeOff: nat := 20
  const SenderMacOff: nat := 22
  const SenderIpOff: nat := 28
  const TargetMacOff: nat := 32
  const TargetIpOff: nat := 38

  function ParseEth(s: seq<u8>): (h: EthHdr<seq<u8>>)
    requires |s| >= EthHdrLen
    ensures |h.payload| == |s| - EthHdrLen
  {
    EthHdr(s[0..6], s[6..12], BE16(s, 12), s[14..])
  }

  function EthBytes(h: EthHdr<seq<u8>>): (s: seq<u8>)
    ensures |s| == EthHdrLen + |h.payload|
  {
    h.dmac + h.smac + BE16Bytes(h.ethertype) + h.payload
  }

  function ParseArp(s: seq<u8>): (h: ArpHdr<seq<u8>>)
    requires |s| >= ArpHdrLen
    ensures |h.data| == |s| - ArpHdrLen
  {
    ArpHdr(BE16(s, 0), BE16(s, 2), s[4], s[5], BE16(s, 6), s[8..])
  }

  function ArpBytes(h: ArpHdr<seq<u8>>): (s: seq<u8>)
    ensures |s| == ArpHdrLen + |h.data|
  {
    BE16Bytes(h.hwtype) + BE16Bytes(h.protype) + [h.hwsize, h.prosize] + BE16Bytes(h.opcode) + h.data
  }

  function ParseIpv4Arp(s: seq<u8>): (d: Ipv4Arp)
    requires |s| == Ipv4ArpLen
    ensures Ipv4ArpBytes(d) == s
  {
    Ipv4Arp(s[0..6], s[6..10], s[10..16], s[16..20])
  }

  function Ipv4ArpBytes(d: Ipv4Arp): (s: seq<u8>)
    ensures |s| == Ipv4ArpLen
  {
    d.smac + d.sip + d.dmac + d.dip
  }

  /** The typed view of a 42-byte ARP frame: the three layouts nested. */
  function ParseArpFrame(s: seq<u8>): (f: ArpFrame)
    requires |s| == ArpFrameLen
    ensures ArpFrameBytes(f) == s
  {
    var eth := ParseEth(s);
    var arp := ParseArp(eth.payload);
    EthHdr(eth.dmac, eth.smac, eth.ethertype,
           ArpHdr(arp.hwtype, arp.protype, arp.hwsize, arp.prosize, arp.opcode, ParseIpv4Arp(arp.data)))
  }

  function ArpFrameBytes(f: ArpFrame): (s: seq<u8>)
    ensures |s| == ArpFrameLen
  {
    var p := f.payload;
    EthBytes(EthHdr(f.dmac, f.smac, f.ethertype,
                    ArpBytes(ArpHdr(p.hwtype, p.protype, p.hwsize, p.prosize, p.opcode, Ipv4ArpBytes(p.data)))))
  }

  lemma EthBytesParse(s: seq<u8>)
    requires |s| >= EthHdrLen
    ensures EthBytes(ParseEth(s)) == s
  {
  }

  lemma ParseEthBytes(h: EthHdr<seq<u8>>)
    ensures ParseEth(EthBytes(h)) == h
  {
  }

  lemma ArpBytesParse(s: seq<u8>)
    requires |s| >= ArpHdrLen
    ensures ArpBytes(ParseArp(s)) == s
  {
  }

  lemma ParseArpBytes(h: ArpHdr<seq<u8>>)
    ensures ParseArp(ArpBytes(h)) == h
  {
  }

  lemma Ipv4ArpRoundTrips(s: seq<u8>, d: Ipv4Arp)
    requires |s| == Ipv4ArpLen
    ensures Ipv4ArpBytes(ParseIpv4Arp(s)) == s
    ensures ParseIpv4Arp(Ipv4ArpBytes(d)) == d
  {
  }

  /** Serialising the typed view of a 42-byte frame gives back the frame. */
  lemma ArpFrameBytesParse(s: seq<u8>)
    requires |s| == ArpFrameLen
    ensures ArpFrameBytes(ParseArpFrame(s)) == s
  {
  }

  /** Parsing a serialised frame gives back every field. */
  lemma ParseArpFrameBytes(f: ArpFrame)
    ensures ParseArpFrame(ArpFrameBytes(f)) == f
  {
    var p := f.payload;
    var data := Ipv4ArpBytes(p.data);
    var arp := ArpHdr(p.hwtype, p.protype, p.hwsize, p.prosize, p.opcode, data);
    Ipv4ArpRoundTrips(data, p.data);
    ParseArpBytes(arp);
    ParseEthBytes(EthHdr(f.dmac, f.smac, f.ethertype, ArpBytes(arp)));
  }

  /** Where each field of the typed view sits in the frame. */
  lemma ArpFrameOffsets(s: seq<u8>)
    requires |s| == ArpFrameLen
    ensures var f := ParseArpFrame(s);
      && f.dmac == s[EthDmacOff..EthDmacOff + 6]
      && f.smac == s[EthSmacOff..EthSmacOff + 6]
      && f.ethertype == BE16(s, EtherTypeOff)
      && f.payload.hwtype == BE16(s, HwTypeOff)
      && f.payload.protype == BE16(s, ProTypeOff)
      && f.payload.hwsize == s[HwSizeOff]
      && f.payload.prosize == s[ProSizeOff]
      && f.payload.opcode == BE16(s, OpCodeOff)
      && f.payload.data.smac == s[SenderMacOff..SenderMacOff + 6]
      && f.payload.data.sip == s[SenderIpOff..SenderIpOff + 4]
      && f.payload.data.dmac == s[TargetMacOff..TargetMacOff + 6]
      && f.payload.data.dip == s[TargetIpOff..TargetIpOff + 4]
  {
  }
}
