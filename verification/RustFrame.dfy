/** The Rust host's frame codec and its blocking frame reader. */
module RustFrame {
  import opened Wire
  import opened Stream

  datatype SerialType =
    | WifiMgmt | WifiData | NetIfMgmt | Hci | Thread | NetOffloading | AtCmd | ProtocolInfo | VSerial

  datatype ErrorType = NoError | IncorrectSequenceNumber | OutOfBuffers | LengthTooLong

  datatype RFrame = RFrame(
    rtype: SerialType, noAck: bool, host: bool, error: ErrorType, number: byte, payload: seq<byte>)

  function ToU8(t: SerialType): nibble {
    match t
    case WifiMgmt => 0 case WifiData => 1 case NetIfMgmt => 2
    case Hci => 3 case Thread => 4 case NetOffloading => 5
    case AtCmd => 6 case ProtocolInfo => 7 case VSerial => 8
  }

  function FromU8(value: byte): Option<SerialType> {
    match value
    case 0 => Some(WifiMgmt) case 1 => Some(WifiData) case 2 => Some(NetIfMgmt)
    case 3 => Some(Hci) case 4 => Some(Thread) case 5 => Some(NetOffloading)
    case 6 => Some(AtCmd) case 7 => Some(ProtocolInfo) case 8 => Some(VSerial)
    case _ => None
  }

  function ErrorOf(value: byte): ErrorType {
    match value % 4
    case 1 => IncorrectSequenceNumber
    case 2 => OutOfBuffers
    case 3 => LengthTooLong
    case _ => NoError
  }

  function BigEndian(high: byte, low: byte): word {
    var h: int := high;
    h * 256 + low
  }

  /** `Frame::parse`: exactly one well-formed frame, or nothing. */
  function ParseFrame(data: seq<byte>): Option<RFrame> {
    if |data| < 4 then None
    else
      var length := BigEndian(data[2], data[3]);
      if length > MAX_PAYLOAD_LEN || |data| != 4 + length then None
      else match FromU8(data[0] % 16)
        case None => None
        case Some(rtype) =>
          if data[1] % 16 != 0 then None
          else Some(RFrame(rtype, data[0] / 16 % 2 != 0, data[0] / 32 % 2 != 0, ErrorOf(data[0] / 64),
                           data[1] / 16 % 16, data[4..]))
  }

  /** `Frame::encode_host_frame`: the length is cut to 16 bits. */
  function EncodeHostFrame(rtype: SerialType, number: byte, payload: seq<byte>): seq<byte> {
    var length: word := |payload| % 65536;
    [ToU8(rtype), number % 16 * 16, length / 256, length % 256] + payload
  }

  /** The C view of a Rust frame. */
  function ToFrame(f: RFrame): Frame
    requires |f.payload| <= MAX_PAYLOAD_LEN && f.number < 16
  {
    var error: crumb := match f.error
      case NoError => 0 case IncorrectSequenceNumber => 1
      case OutOfBuffers => 2 case LengthTooLong => 3;
    Frame(Header(ToU8(f.rtype), f.noAck, f.host, error, 0, f.number, |f.payload|), f.payload)
  }

  /** The Rust parser accepts a byte sequence exactly when the C decoder and
      `bus_validate_rx` accept its header and nothing but the payload follows, and
      both then see the same frame. */
  lemma ParseAgreesWithC(data: seq<byte>)
    ensures ParseFrame(data).Some? <==>
            |data| >= 4 && ValidateRx(DecodeHeader(data[..4])) == Ok && |data| == 4 + DecodeHeader(data[..4]).length
    ensures ParseFrame(data).Some? ==>
              var f := ParseFrame(data).value;
              && f.number < 16 && |f.payload| <= MAX_PAYLOAD_LEN
              && ToFrame(f) == Frame(DecodeHeader(data[..4]), data[4..])
              && FrameBytes(ToFrame(f)) == data
  {
    if |data| >= 4 {
      HeaderRoundTrip(DecodeHeader(data[..4]), data[..4]);
      assert data == data[..4] + data[4..];
    }
  }

  /** What both accept, said of the bytes, and what the error and the type then mean: the
      error the Rust host takes for a sequence refusal is the one the device sends. */
  lemma ParseDecided(data: seq<byte>)
    ensures ParseFrame(data).Some? <==>
            && |data| >= 4 && data[0] % 16 <= 8 && data[1] % 16 == 0
            && data[2] as int * 256 + data[3] <= 4096 && |data| == 4 + (data[2] as int * 256 + data[3])
    ensures ParseFrame(data).Some? ==>
              var f, h := ParseFrame(data).value, DecodeHeader(data[..4]);
              && (f.error == NoError <==> h.error == NO_ERROR)
              && (f.error == IncorrectSequenceNumber <==> h.error == INCORRECT_SEQUENCE_NUMBER)
              && (f.error == OutOfBuffers <==> h.error == OUT_OF_BUFFERS)
              && (f.error == LengthTooLong <==> h.error == LENGTH_TOO_LONG)
              && (f.rtype == ProtocolInfo <==> h.typ == TYPE_PROTOCOL_INFO) && (f.rtype == Hci <==> h.typ == TYPE_HCI)
              && h.typ == data[0] % 16 && h.error == data[0] / 64 && f.number == data[1] / 16 && f.payload == data[4..]
  {
  }

  /** What the Rust host encodes it can parse back, for exactly the payloads of at
      most 4096 bytes; beyond that the 16-bit length cannot match. */
  lemma EncodeRoundTrip(rtype: SerialType, number: byte, payload: seq<byte>)
    ensures ParseFrame(EncodeHostFrame(rtype, number, payload)) ==
            if |payload| <= MAX_PAYLOAD_LEN
            then Some(RFrame(rtype, false, false, NoError, number % 16, payload)) else None
    ensures |payload| <= MAX_PAYLOAD_LEN ==>
              EncodeHostFrame(rtype, number, payload) == FrameBytes(HostFrame(rtype, number, payload))
  {
    if |payload| <= MAX_PAYLOAD_LEN {
      EncodedParses(rtype, number, payload);
      EncodeIsC(rtype, number, payload);
    } else {
      LengthBytes(|payload| % 65536);
    }
  }

  lemma EncodedParses(rtype: SerialType, number: byte, payload: seq<byte>)
    requires |payload| <= MAX_PAYLOAD_LEN
    ensures ParseFrame(EncodeHostFrame(rtype, number, payload)) ==
            Some(RFrame(rtype, false, false, NoError, number % 16, payload))
  {
    var data := EncodeHostFrame(rtype, number, payload);
    assert data[4..] == payload && |payload| % 65536 == |payload|;
    LengthBytes(|payload|);
    NumberByte(number % 16);
    assert FromU8(data[0] % 16) == Some(rtype) && ErrorOf(data[0] / 64) == NoError;
  }

  lemma LengthBytes(n: word)
    ensures BigEndian(n / 256, n % 256) == n
  {
  }

  lemma NumberByte(n: nibble)
    ensures n * 16 % 16 == 0 && n * 16 / 16 % 16 == n
  {
  }

  /** A host frame as the C code sees it. */
  function HostFrame(rtype: SerialType, number: byte, payload: seq<byte>): (f: Frame)
    requires |payload| <= MAX_PAYLOAD_LEN
    ensures WellFormed(f) && f.payload == payload && !f.hdr.noAck
    ensures f.hdr.typ == ToU8(rtype) && f.hdr.number == number % 16
  {
    Frame(Header(ToU8(rtype), false, false, NO_ERROR, 0, number % 16, |payload|), payload)
  }

  lemma EncodeIsC(rtype: SerialType, number: byte, payload: seq<byte>)
    requires |payload| <= MAX_PAYLOAD_LEN
    ensures EncodeHostFrame(rtype, number, payload) == FrameBytes(HostFrame(rtype, number, payload))
  {
    assert |payload| % 65536 == |payload|;
  }

  /** What one call of `read_frame` yields for one item of the stream. */
  function Outcome(i: Item): Option<RFrame> {
    match i
    case Whole(f) => ParseFrame(FrameBytes(f))
    case Oversize(_) => None
  }

  datatype ReadResult = Got(frame: RFrame) | Failed

  function ResultOf(i: Item): ReadResult {
    match Outcome(i) case Some(f) => Got(f) case None => Failed
  }

  /** A serial port: each read returns any prefix of what is waiting, even an
      empty one (a timed-out read); the deadline passes after `polls` reads. */
  class SerialPort {
    var rx: seq<byte>
    var polls: nat

    constructor (rx: seq<byte>, polls: nat)
      ensures this.rx == rx && this.polls == polls
    {
      this.rx, this.polls := rx, polls;
    }

    method Read(max: nat) returns (got: seq<byte>)
      modifies this
      ensures old(rx) == got + rx && |got| <= max
      ensures polls == old(polls)
    {
      var most := if max < |rx| then max else |rx|;
      var n: nat :| n <= most;
      got, rx := rx[..n], rx[n..];
    }

    /** `Session::read_bytes`. */
    method ReadBytes(len: nat) returns (buf: seq<byte>)
      modifies this
      ensures old(rx) == buf + rx && |buf| <= len
      ensures |buf| < len ==> polls == 0
    {
      buf := [];
      while |buf| < len
        invariant old(rx) == buf + rx && |buf| <= len
        decreases polls
      {
        if polls == 0 {
          break;
        }
        polls := polls - 1;
        var got := Read(len - |buf|);
        assert buf + (got + rx) == (buf + got) + rx;
        buf := buf + got;
      }
    }

    /** `Session::read_frame`: unless the deadline passes inside it, one call
        consumes exactly the first item of the stream, good or bad. */
    method ReadFrame() returns (r: ReadResult, late: bool)
      modifies this
      ensures late ==> polls == 0 && r == Failed
      ensures |rx| <= |old(rx)| && old(rx)[|old(rx)| - |rx|..] == rx
      ensures late ==> !HasItem(old(rx)[..|old(rx)| - |rx|])
      ensures !late ==> HasItem(old(rx)) && r == ResultOf(FirstItem(old(rx)))
      ensures !late ==> old(rx) == ItemBytes(FirstItem(old(rx))) + rx
    {
      var header := ReadBytes(4);
      if |header| != 4 {
        assert old(rx)[..|header|] == header && old(rx)[|header|..] == rx;
        return Failed, true;
      }
      ghost var all := header + rx;
      assert all[..4] == header;
      HeaderRoundTrip(DecodeHeader(header), header);
      var length := BigEndian(header[2], header[3]);
      if length == 0 {
        assert FrameBytes(Frame(DecodeHeader(header), [])) == header;
        return (match ParseFrame(header) case Some(f) => Got(f) case None => Failed), false;
      }
      if length > MAX_PAYLOAD_LEN {
        return Failed, false;
      }
      var payload := ReadBytes(length);
      if |payload| != length {
        assert all == (header + payload) + rx;
        assert all[..|header + payload|] == header + payload && (header + payload)[..4] == header;
        return Failed, true;
      }
      assert all == header + (payload + rx);
      assert all[4..4 + length] == payload;
      assert FirstItem(all) == Whole(Frame(DecodeHeader(header), payload));
      r := match ParseFrame(header + payload) case Some(f) => Got(f) case None => Failed;
      late := false;
    }
  }

  lemma {:induction false} ParseAfterFirst(s: seq<byte>, rest: seq<byte>)
    requires HasItem(s) && s == ItemBytes(FirstItem(s)) + rest
    ensures Parse(s) == Parsed([FirstItem(s)] + Parse(rest).items, Parse(rest).rest)
  {
    assert s[|ItemBytes(FirstItem(s))|..] == rest;
  }

  /** Behind `k` items the stream `left` begins with the next one. */
  lemma NextItem(items: seq<Item>, k: nat, end: seq<byte>, left: seq<byte>, next: seq<byte>)
    requires k <= |items| && Parse(left) == Parsed(items[k..], end)
    requires HasItem(left) && left == ItemBytes(FirstItem(left)) + next
    ensures k < |items| && items[k] == FirstItem(left) && Parse(next) == Parsed(items[k + 1..], end)
  {
    ParseAfterFirst(left, next);
    assert |items[k..]| == 1 + |Parse(next).items|;
    assert items[k] == items[k..][0];
    assert items[k + 1..] == items[k..][1..];
  }

  /** Any number of calls that finish before the deadline return the outcomes of
      exactly the first items of the stream, in order: a malformed frame costs one
      failed call and no alignment. */
  method ReadFrames(stream: seq<byte>, polls: nat, n: nat)
    returns (results: seq<ReadResult>, left: seq<byte>, late: bool)
    ensures |results| <= |Parse(stream).items| && |results| <= n
    ensures forall k :: 0 <= k < |results| ==> results[k] == ResultOf(Parse(stream).items[k])
    ensures late <==> |results| < n
    ensures !late ==> Parse(left) == Parsed(Parse(stream).items[n..], Parse(stream).rest)
  {
    ghost var items, end := Parse(stream).items, Parse(stream).rest;
    assert items[0..] == items;
    var port := new SerialPort(stream, polls);
    results, left, late := [], stream, false;
    while |results| < n
      invariant fresh(port) && left == port.rx
      invariant |results| <= n && |results| <= |items| && !late
      invariant forall k :: 0 <= k < |results| ==> results[k] == ResultOf(items[k])
      invariant Parse(left) == Parsed(items[|results|..], end)
    {
      var r;
      r, late := port.ReadFrame();
      if late {
        left := port.rx;
        return;
      }
      NextItem(items, |results|, end, left, port.rx);
      left := port.rx;
      results := results + [r];
    }
  }
}
