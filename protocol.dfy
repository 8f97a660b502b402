/**
 The three enumerations the responder decodes from the wire: the Ethernet
 type, the ARP hardware type and the ARP operation. Each constant is the
 big-endian value of the field; a value outside the list decodes to Unknown.
 */
module Protocol {
  import opened Bytes

  /** IEEE 802 EtherType assignments used by the responder. */
  datatype EtherType = Unknown | Ipv4 | Arp | Ipv6

  /** The wire code of a variant; only Unknown has code 0. */
  function EtherTypeCode(t: EtherType): (c: u16)
    ensures c == 0 <==> t.Unknown?
  {
    match t
    case Unknown => 0x0000
    case Ipv4 => 0x0800
    case Arp => 0x0806
    case Ipv6 => 0x86dd
  }

  /** Decodes an ethertype field: the variant whose code is v, or Unknown if none is. */
  function EtherTypeOf(v: u16): (t: EtherType)
    ensures t.Unknown? || EtherTypeCode(t) == v
    ensures t.Unknown? ==> forall k :: EtherTypeCode(k) == v ==> k.Unknown?
  {
    if v == 0x0800 then Ipv4
    else if v == 0x0806 then Arp
    else if v == 0x86dd then Ipv6
    else EtherType.Unknown
  }

  /** ARP hardware types (RFC 826 "ar$hrd"). */
  datatype HwType = Unknown | Ethernet

  /** The wire code of a variant; only Unknown has code 0. */
  function HwTypeCode(t: HwType): (c: u16)
    ensures c == 0 <==> t.Unknown?
  {
    match t
    case Unknown => 0x0000
    case Ethernet => 0x0001
  }

  /** Decodes a hardware-type field: the variant whose code is v, or Unknown if none is. */
  function HwTypeOf(v: u16): (t: HwType)
    ensures t.Unknown? || HwTypeCode(t) == v
    ensures t.Unknown? ==> forall k :: HwTypeCode(k) == v ==> k.Unknown?
  {
    if v == 0x0001 then Ethernet else HwType.Unknown
  }

  /** ARP operation codes (RFC 826 "ar$op"). */
  datatype OpCode = Unknown | Request | Reply

  /** The wire code of a variant; only Unknown has code 0. */
  function OpCodeCode(t: OpCode): (c: u16)
    ensures c == 0 <==> t.Unknown?
  {
    match t
    case Unknown => 0x0000
    case Request => 0x0001
    case Reply => 0x0002
  }

  /** Decodes an opcode field: the variant whose code is v, or Unknown if none is. */
  function OpCodeOf(v: u16): (t: OpCode)
    ensures t.Unknown? || OpCodeCode(t) == v
    ensures t.Unknown? ==> forall k :: OpCodeCode(k) == v ==> k.Unknown?
  {
    if v == 0x0001 then Request
    else if v == 0x0002 then Reply
    else OpCode.Unknown
  }

  /** Encoding then decoding gives back every variant, Unknown included
      (its code 0 is not the code of any other variant). */
  lemma EnumRoundTrips(e: EtherType, h: HwType, o: OpCode)
    ensures EtherTypeOf(EtherTypeCode(e)) == e
    ensures HwTypeOf(HwTypeCode(h)) == h
    ensures OpCodeOf(OpCodeCode(o)) == o
  {
  }

  /** Distinct variants have distinct wire codes, so no two variants share
      a discriminant. */
  lemma CodesInjective(e1: EtherType, e2: EtherType, h1: HwType, h2: HwType, o1: OpCode, o2: OpCode)
    ensures EtherTypeCode(e1) == EtherTypeCode(e2) ==> e1 == e2
    ensures HwTypeCode(h1) == HwTypeCode(h2) ==> h1 == h2
    ensures OpCodeCode(o1) == OpCodeCode(o2) ==> o1 == o2
  {
  }
}
