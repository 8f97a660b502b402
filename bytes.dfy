/**
 Raw bytes of a frame, network-order (big-endian) 16-bit fields, and
 fixed-offset overwrites. These replace the packed-struct reinterpretation
 of the frame buffer with explicit reads and writes at byte offsets.
 */
module Bytes {

  newtype u8 = x: int | 0 <= x < 0x100
  newtype u16 = x: int | 0 <= x < 0x1_0000

  /** A hardware (MAC) address: six bytes. */
  type MacAddr = s: seq<u8> | |s| == 6 witness [0, 0, 0, 0, 0, 0]

  /** An IPv4 address: four bytes, most significant first. */
  type Ipv4Addr = s: seq<u8> | |s| == 4 witness [0, 0, 0, 0]

  /** The 16-bit value stored in network byte order at s[off], s[off + 1]:
      the first byte is the high byte, the second the low byte. */
  function BE16(s: seq<u8>, off: nat): (v: u16)
    requires off + 2 <= |s|
    ensures v as int / 0x100 == s[off] as int
    ensures v as int % 0x100 == s[off + 1] as int
  {
    (s[off] as int * 0x100 + s[off + 1] as int) as u16
  }

  /** The two bytes that store v in network byte order. */
  function BE16Bytes(v: u16): (s: seq<u8>)
    ensures |s| == 2 && BE16(s, 0) == v
  {
    [(v / 0x100) as u8, (v % 0x100) as u8]
  }

  /** Reading a 16-bit field and writing it back gives the same two bytes. */
  lemma BE16BytesOfRead(s: seq<u8>, off: nat)
    requires off + 2 <= |s|
    ensures BE16Bytes(BE16(s, off)) == s[off..off + 2]
  {
  }

  /** A 16-bit field equals v exactly when its two bytes are those of v. */
  lemma BE16Is(s: seq<u8>, off: nat, v: u16)
    requires off + 2 <= |s|
    ensures BE16(s, off) == v <==> s[off..off + 2] == BE16Bytes(v)
  {
  }

  /** s with the |v| bytes starting at off replaced by v (a field assignment). */
  function PutBytes(s: seq<u8>, off: nat, v: seq<u8>): (r: seq<u8>)
    requires off + |v| <= |s|
    ensures |r| == |s|
    ensures r[off..off + |v|] == v
    ensures forall i :: off <= i < off + |v| ==> r[i] == v[i - off]
    ensures r[..off] == s[..off] && r[off + |v|..] == s[off + |v|..]
    ensures forall i :: 0 <= i < |s| && !(off <= i < off + |v|) ==> r[i] == s[i]
  {
    s[..off] + v + s[off + |v|..]
  }

  /** In-place field assignment on a byte buffer. */
  method WriteBytes(b: array<u8>, off: nat, v: seq<u8>)
    requires off + |v| <= b.Length
    modifies b
    ensures b[..] == PutBytes(old(b[..]), off, v)
  {
    forall i | off <= i < off + |v| {
      b[i] := v[i - off];
    }
  }
}
