/** The 4-byte frame header shared by the device, the C host and the Rust host.

Bit operations on the wire bytes are written as arithmetic: `& 0x0F` is `% 16`,
`>> k` is a division and `<< k` a multiplication by a power of two, and `|` of
disjoint bit fields is a sum. */
module Wire {
  type byte = x: int | 0 <= x < 256
  type nibble = x: int | 0 <= x < 16
  type crumb = x: int | 0 <= x < 4
  type word = x: int | 0 <= x < 65536

  const PROTOCOL_VERSION: byte := 1
  const MAX_PAYLOAD_LEN: word := 4096
  const SEQUENCE_NUMBER_MAX: nibble := 15

  const TYPE_HCI: nibble := 3
  const TYPE_PROTOCOL_INFO: nibble := 7
  const TYPE_UNKNOWN: nibble := 9

  const NO_ERROR: crumb := 0
  const INCORRECT_SEQUENCE_NUMBER: crumb := 1
  const OUT_OF_BUFFERS: crumb := 2
  const LENGTH_TOO_LONG: crumb := 3

  datatype Option<+T> = None | Some(value: T)

  datatype Status = Ok | Invalid | TooLong

  datatype Header = Header(
    typ: nibble, noAck: bool, host: bool, error: crumb,
    reserved: nibble, number: nibble, length: word)

  /** A header together with the payload bytes that follow it. */
  datatype Frame = Frame(hdr: Header, payload: seq<byte>)

  ghost predicate WellFormed(f: Frame) {
    |f.payload| == f.hdr.length <= MAX_PAYLOAD_LEN
  }

  /** The stages of both incremental parsers. */
  datatype ParsingState = Type | SequenceNumber | Length1 | Length2 | Data

  /** The header's first byte has been taken over from `p`. */
  ghost predicate FirstByte(h: Header, p: seq<byte>)
    requires |p| >= 1
  {
    && h.typ == p[0] % 16 && h.error == p[0] / 64
    && h.noAck == (p[0] / 16 % 2 == 1) && h.host == (p[0] / 32 % 2 == 1)
  }

  ghost predicate SecondByte(h: Header, p: seq<byte>)
    requires |p| >= 2
  {
    h.reserved == p[1] % 16 && h.number == p[1] / 16
  }

  function Bit(b: bool): byte { if b then 1 else 0 }

  function EncodeHeader(h: Header): (out: seq<byte>)
    ensures |out| == 4
  {
    [h.error * 64 + Bit(h.host) * 32 + Bit(h.noAck) * 16 + h.typ,
     h.number * 16 + h.reserved,
     h.length / 256,
     h.length % 256]
  }

  function DecodeHeader(bytes: seq<byte>): Header
    requires |bytes| == 4
  {
    var high: int := bytes[2];
    Header(bytes[0] % 16, bytes[0] / 16 % 2 == 1, bytes[0] / 32 % 2 == 1, bytes[0] / 64,
           bytes[1] % 16, bytes[1] / 16, high * 256 + bytes[3])
  }

  function FrameBytes(f: Frame): seq<byte> {
    EncodeHeader(f.hdr) + f.payload
  }

  function Next(number: nibble): nibble {
    if number >= SEQUENCE_NUMBER_MAX then 0 else number + 1
  }

  function ValidateTx(typ: nibble, len: word): Status {
    if len > MAX_PAYLOAD_LEN then TooLong
    else if len == 0 && typ != TYPE_PROTOCOL_INFO then Invalid
    else Ok
  }

  function ValidateRx(h: Header): Status {
    if h.reserved != 0 then Invalid
    else if h.typ >= TYPE_UNKNOWN then Invalid
    else if h.length > MAX_PAYLOAD_LEN then TooLong
    else Ok
  }

  /** The length-0 frame both sides use to acknowledge or refuse a frame. */
  function Ack(typ: nibble, number: nibble, error: crumb, host: bool): (f: Frame)
    ensures WellFormed(f) && f.payload == [] && f.hdr.length == 0 && !f.hdr.noAck && f.hdr.reserved == 0
    ensures f.hdr.typ == typ && f.hdr.number == number && f.hdr.error == error && f.hdr.host == host
  {
    Frame(Header(typ, false, host, error, 0, number, 0), [])
  }

  /** A length-0 frame that names a number and an error. */
  ghost predicate Names(r: Frame, typ: nibble, number: nibble, error: crumb, host: bool) {
    && r.hdr.typ == typ && r.hdr.number == number && r.hdr.error == error && r.hdr.host == host
    && !r.hdr.noAck && r.hdr.reserved == 0 && r.hdr.length == 0 && r.payload == []
  }

  /** An acknowledgement on the wire. */
  lemma AckBytes(typ: nibble, number: nibble, error: crumb, host: bool)
    ensures FrameBytes(Ack(typ, number, error, host)) ==
            [error * 64 + (if host then 32 else 0) + typ, number * 16, 0, 0]
  {
    var f := Ack(typ, number, error, host);
    assert EncodeHeader(f.hdr) + [] == EncodeHeader(f.hdr);
  }

  /** A host's frame with the caller's payload, all of it, and nothing else set. */
  ghost predicate Carries(f: Frame, typ: nibble, number: nibble, payload: seq<byte>) {
    && f.payload == payload && f.hdr.length == |payload| % 65536
    && f.hdr.typ == typ && f.hdr.number == number
    && !f.hdr.noAck && !f.hdr.host && f.hdr.error == NO_ERROR && f.hdr.reserved == 0
  }

  lemma PackByte(error: crumb, host: bool, noAck: bool, typ: nibble)
    ensures var b := error * 64 + Bit(host) * 32 + Bit(noAck) * 16 + typ;
            b / 64 == error && (b / 32 % 2 == 1) == host && (b / 16 % 2 == 1) == noAck && b % 16 == typ
  {
    var b := error * 64 + Bit(host) * 32 + Bit(noAck) * 16 + typ;
    assert b / 16 == error * 4 + Bit(host) * 2 + Bit(noAck);
    assert b / 32 == error * 2 + Bit(host);
  }

  lemma UnpackByte(b: byte)
    ensures b == b / 64 * 64 + b / 32 % 2 * 32 + b / 16 % 2 * 16 + b % 16
  {
  }

  /** Encoding and decoding are mutually inverse on all headers and all 4-byte words. */
  lemma HeaderRoundTrip(h: Header, word: seq<byte>)
    requires |word| == 4
    ensures DecodeHeader(EncodeHeader(h)) == h
    ensures EncodeHeader(DecodeHeader(word)) == word
  {
    PackByte(h.error, h.host, h.noAck, h.typ);
    UnpackByte(word[0]);
  }

  /** The header of a host's frame with nothing but type, number and a short length. */
  lemma HeaderBytes(typ: nibble, number: nibble, length: byte)
    ensures EncodeHeader(Header(typ, false, false, NO_ERROR, 0, number, length)) == [typ, number * 16, 0, length]
  {
    var h := Header(typ, false, false, NO_ERROR, 0, number, length);
    var out := EncodeHeader(h);
    assert out[0] == typ && out[1] == number * 16;
    assert out[2] == 0 && out[3] == length;
  }

  /** The counter after any number of steps. */
  function Advance(number: nibble, steps: nat): nibble {
    (number + steps) % 16
  }

  lemma AdvanceNext(number: nibble, steps: nat)
    ensures Next(Advance(number, steps)) == Advance(number, steps + 1)
    ensures Advance(Next(number), steps) == Advance(number, steps + 1)
  {
    var q := (number + steps) / 16;
    assert number + steps == 16 * q + Advance(number, steps);
    assert Advance(number, steps) == 15 ==> number + steps + 1 == 16 * (q + 1);
    assert number == 15 ==> number + (steps + 1) == 16 + steps;
  }

  lemma AdvanceTwice(number: nibble, steps: nat)
    ensures Advance(Advance(number, steps), 1) == Advance(number, steps + 1)
    ensures Advance(number, 0) == number
  {
  }
}
