/** Bluetooth commands from the Rust host through the link into the device's HCI
proxy. */
module Hci {
  import opened Wire
  import opened Protocol
  import opened Landing
  import opened DeviceReceiver
  import opened DeviceRun
  import RustFrame
  import Uart

  const H4_CMD: byte := 1
  const H4_ACL: byte := 2
  const PROXY_BUFFER_SIZE: nat := 512

  /** `hci_command_packet`: the parameter length is cut to 8 bits. */
  function CommandPacket(opcode: word, params: seq<byte>): (p: seq<byte>)
    ensures |p| == 4 + |params| && p[0] == 1 && p[4..] == params
    ensures p[1] as int + p[2] as int * 256 == opcode && p[3] == |params| % 256
  {
    var low: byte, high: byte, count: byte := opcode % 256, opcode / 256, |params| % 256;
    [H4_CMD, low, high, count] + params
  }

  /** `hci_packet_validate`, on the whole accumulation buffer. */
  predicate PacketValid(buf: seq<byte>, len: nat)
    requires |buf| == PROXY_BUFFER_SIZE
  {
    if buf[0] == H4_CMD then len - 4 == buf[3]
    else if buf[0] == H4_ACL then
      var high: int := buf[4];
      len == 6 + (high * 256 + buf[3])
    else false
  }

  /** `bt_proxy_message_complete`: the packet handed to the controller, if any. The
      H:4 type byte is put back in front of the rest of the buffer. */
  function Forwarded(buf: seq<byte>, len: nat): Option<seq<byte>>
    requires |buf| == PROXY_BUFFER_SIZE
  {
    if len < 2 || len > PROXY_BUFFER_SIZE || !PacketValid(buf, len) then None
    else Some([buf[0]] + buf[1..len])
  }

  /** Bytes left over from earlier packets never decide anything: validation may
      read past a short packet, but then rejects it whatever it finds there. */
  lemma StaleBytesIrrelevant(a: seq<byte>, b: seq<byte>, len: nat)
    requires |a| == |b| == PROXY_BUFFER_SIZE && len <= PROXY_BUFFER_SIZE
    requires a[..len] == b[..len]
    ensures Forwarded(a, len) == Forwarded(b, len)
    ensures Forwarded(a, len).Some? ==> Forwarded(a, len).value == a[..len]
  {
    assert forall k :: 0 <= k < len ==> a[k] == a[..len][k] && b[k] == b[..len][k];
    if 2 <= len {
      assert [a[0]] + a[1..len] == a[..len] && [b[0]] + b[1..len] == b[..len];
    }
  }

  /** A command packet that fits the proxy's buffer is forwarded byte for byte if and
      only if it has at most 255 parameter bytes; otherwise it is dropped. */
  lemma CommandForwarded(opcode: word, params: seq<byte>, buf: seq<byte>)
    requires |buf| == PROXY_BUFFER_SIZE && |params| + 4 <= PROXY_BUFFER_SIZE
    requires buf[..4 + |params|] == CommandPacket(opcode, params)
    ensures Forwarded(buf, 4 + |params|) ==
            if |params| <= 255 then Some(CommandPacket(opcode, params)) else None
  {
    var p := CommandPacket(opcode, params);
    assert buf[0] == p[0] && buf[3] == p[3];
    assert [buf[0]] + buf[1..|p|] == buf[..|p|];
  }

  /** Which packets are forwarded, said of the packet alone: commands whose last header
      byte counts the bytes behind it, and type-2 packets one byte longer than their
      length field says; those unchanged, and nothing else. */
  lemma ForwardedIff(packet: seq<byte>, buf: seq<byte>)
    requires |buf| == PROXY_BUFFER_SIZE && |packet| <= PROXY_BUFFER_SIZE && buf[..|packet|] == packet
    ensures Forwarded(buf, |packet|) ==
            if || (|packet| >= 4 && packet[0] == 1 && |packet| - 4 == packet[3])
               || (|packet| >= 5 && packet[0] == 2 && |packet| - 6 == packet[3] as int + packet[4] as int * 256)
            then Some(packet) else None
  {
    assert forall k :: 0 <= k < |packet| ==> buf[k] == packet[k];
    if |packet| >= 2 {
      assert [buf[0]] + buf[1..|packet|] == packet;
    }
  }

  /** An ACL data packet as section 5.4.2 of volume 4, part E of the Bluetooth Core
      Specification lays it out. */
  function AclPacket(handle: word, data: seq<byte>): seq<byte>
    requires |data| < 65536
  {
    [H4_ACL, handle % 256, handle / 256, |data| % 256, |data| / 256] + data
  }

  /** The check counts one header byte too many: no such packet is ever forwarded. With
      one more byte behind it, every one that fits is. */
  lemma AclDropped(handle: word, data: seq<byte>, behind: seq<byte>, buf: seq<byte>)
    requires |data| < 65536 && |buf| == PROXY_BUFFER_SIZE
    requires 5 + |data| + |behind| <= PROXY_BUFFER_SIZE
    requires buf[..5 + |data| + |behind|] == AclPacket(handle, data) + behind
    ensures Forwarded(buf, 5 + |data| + |behind|) ==
            if |behind| == 1 then Some(AclPacket(handle, data) + behind) else None
  {
    ForwardedIff(AclPacket(handle, data) + behind, buf);
  }

  lemma OneChunk(all: seq<byte>)
    ensures Flatten([all]) == all && AtOnce([all])
  {
    var chunks: seq<seq<byte>> := [all];
    assert chunks[..0] == [] && chunks[..1] == chunks && [] + all == all;
  }

  /** One frame for an advancing client, delivered whole and read at once. */
  method ReceiveAtOnce(dev: SerialDevice, port: Uart.Port, client: Client, f: Frame)
    requires dev.Valid() && dev.state == Type && port.rx == [] && port.greedy
    requires Suits(f, client, dev.wired) && client.advancing && client.fill == 0
    modifies dev, port, client, client.buf
    ensures dev.Valid() && dev.state == Type && port.rx == [] && client.Valid() && client.fill == 0
    ensures client.buf[..f.hdr.length] == f.payload
    ensures var r := React(old(dev.Value()), f);
            dev.Value() == r.dev && dev.sent == old(dev.sent) + r.replies
  {
    OneChunk(FrameBytes(f));
    ReceiveFrame(dev, port, client, [FrameBytes(f)], f);
  }

  /** Any stream of HCI frames, accepted or refused, each received in one read: the
      proxy's fill count is 0 at every frame boundary and the device reacts as
      `ReactAll`. */
  method ReceiveStream(dev: SerialDevice, port: Uart.Port, client: Client, frames: seq<Frame>)
    requires dev.Valid() && dev.state == Type && port.rx == [] && port.greedy && TYPE_HCI in dev.wired
    requires client.Valid() && client.advancing && client.fill == 0
    requires forall f :: f in frames ==> WellFormed(f) && f.hdr.typ == TYPE_HCI && 0 < f.hdr.length <= client.capacity
    modifies dev, port, client, client.buf
    ensures dev.Valid() && client.fill == 0
    ensures var r := ReactAll(old(dev.Value()), frames);
            dev.Value() == r.dev && dev.sent == old(dev.sent) + r.replies
  {
    for n := 0 to |frames|
      invariant dev.Valid() && dev.state == Type && port.rx == [] && client.Valid() && client.fill == 0
      invariant var r := ReactAll(old(dev.Value()), frames[..n]);
                dev.Value() == r.dev && dev.sent == old(dev.sent) + r.replies
    {
      assert frames[n] in frames;
      ReactSnoc(old(dev.Value()), frames[..n], frames[n]);
      NextPrefix(frames, n);
      ReceiveAtOnce(dev, port, client, frames[n]);
    }
    assert frames[..|frames|] == frames;
  }

  /** An HCI frame with the number the device expects. */
  method ReceiveExpected(dev: SerialDevice, port: Uart.Port, client: Client, f: Frame)
    requires dev.Valid() && dev.state == Type && port.rx == [] && port.greedy
    requires Suits(f, client, dev.wired) && client.advancing && client.fill == 0
    requires f.hdr.number == dev.rxNumber && !f.hdr.noAck
    modifies dev, port, client, client.buf
    ensures dev.Valid() && dev.state == Type && port.rx == [] && client.Valid() && client.fill == 0
    ensures client.buf[..f.hdr.length] == f.payload
    ensures dev.sent == old(dev.sent) + [Ack(f.hdr.typ, f.hdr.number, NO_ERROR, true)]
    ensures dev.completed == old(dev.completed) + [f] && dev.rxNumber == Next(old(dev.rxNumber))
  {
    AcceptedOnce(dev.Value(), f);
    ReceiveAtOnce(dev, port, client, f);
  }

  /** One command, end to end, on any device at a frame boundary and whatever it has done
      before: what the Rust host encodes with the number the device expects is one
      frame, the device accepts and acknowledges it, and the proxy hands the controller
      exactly the packet the host built. */
  method CommandEndToEnd(dev: SerialDevice, port: Uart.Port, client: Client, opcode: word, params: seq<byte>)
    returns (wire: seq<byte>, forwarded: Option<seq<byte>>)
    requires dev.Valid() && dev.state == Type && port.rx == [] && port.greedy && TYPE_HCI in dev.wired
    requires client.Valid() && client.advancing && client.fill == 0 && client.capacity == PROXY_BUFFER_SIZE
    requires |params| + 4 <= PROXY_BUFFER_SIZE
    modifies dev, port, client, client.buf
    ensures wire == RustFrame.EncodeHostFrame(RustFrame.Hci, old(dev.rxNumber), CommandPacket(opcode, params))
    ensures forwarded == if |params| <= 255 then Some(CommandPacket(opcode, params)) else None
    ensures dev.sent == old(dev.sent) + [Ack(TYPE_HCI, old(dev.rxNumber), NO_ERROR, true)]
    ensures |dev.completed| == old(|dev.completed|) + 1
    ensures FrameBytes(dev.completed[old(|dev.completed|)]) == wire
    ensures dev.rxNumber == Next(old(dev.rxNumber)) && client.fill == 0
  {
    var packet := CommandPacket(opcode, params);
    wire := RustFrame.EncodeHostFrame(RustFrame.Hci, dev.rxNumber, packet);
    var f := RustFrame.HostFrame(RustFrame.Hci, dev.rxNumber, packet);
    RustFrame.EncodeIsC(RustFrame.Hci, dev.rxNumber, packet);
    ReceiveExpected(dev, port, client, f);
    var buf := client.buf[..PROXY_BUFFER_SIZE];
    assert buf[..|packet|] == client.buf[..|packet|];
    CommandForwarded(opcode, params, buf);
    forwarded := Forwarded(buf, |packet|);
  }

  lemma AcceptedOnce(d: Device, f: Frame)
    requires !d.stuck && IsData(f) && !f.hdr.noAck && f.hdr.typ in d.wired && f.hdr.number == d.rx
    ensures React(d, f) == Reaction(d.(rx := Next(d.rx), accepted := d.accepted + [f]),
                                    [Ack(f.hdr.typ, d.rx, NO_ERROR, true)])
  {
  }
}
