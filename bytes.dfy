/** Bytes and the fixed little-endian 16-bit word encoding used inside a page. */
module Bytes {

  /** uint8_t */
  type Byte = x: int | 0 <= x < 0x100

  /** uint16_t, the page's intra_offset_t for page sizes up to 16384 */
  type U16 = x: int | 0 <= x < 0x1_0000

  /** The two bytes of a 16-bit word, low byte first. */
  function EncodeU16(v: U16): (r: seq<Byte>)
    ensures |r| == 2 && DecodeU16(r) == v
  {
    [v % 0x100, v / 0x100]
  }

  /** The 16-bit word stored little-endian in two bytes. */
  function DecodeU16(s: seq<Byte>): U16
    requires |s| == 2
  {
    ReadU16(s, 0)
  }

  /** Decoding loses nothing: every pair of bytes is the encoding of its word. */
  lemma EncodeDecodeU16(s: seq<Byte>)
    requires |s| == 2
    ensures EncodeU16(DecodeU16(s)) == s
  {
  }

  /** The word stored little-endian at byte position pos of buf. */
  function ReadU16(buf: seq<Byte>, pos: nat): U16
    requires pos + 2 <= |buf|
  {
    buf[pos] as int + 0x100 * buf[pos + 1] as int
  }

  /** buf with the bytes s written over it from position pos on. */
  function Splice(buf: seq<Byte>, pos: nat, s: seq<Byte>): (r: seq<Byte>)
    requires pos + |s| <= |buf|
    ensures |r| == |buf|
    ensures forall k :: 0 <= k < |buf| ==> r[k] == if pos <= k < pos + |s| then s[k - pos] else buf[k]
  {
    seq(|buf|, k requires 0 <= k < |buf| => if pos <= k < pos + |s| then s[k - pos] else buf[k])
  }

  /** buf with the word v written at position pos. */
  function WriteU16(buf: seq<Byte>, pos: nat, v: U16): (r: seq<Byte>)
    requires pos + 2 <= |buf|
    ensures |r| == |buf| && ReadU16(r, pos) == v
    ensures forall k :: 0 <= k < |buf| && (k < pos || pos + 2 <= k) ==> r[k] == buf[k]
  {
    Splice(buf, pos, EncodeU16(v))
  }
}
