/** `bus_send` and `bus_request` narrow a length to 16 bits before they check it. */
module Narrowing {
  import opened Wire
  import opened HostBus
  import Stream

  /** What an accepted length means on the wire: a receiver sees a frame with the first
      bytes of the payload, as many as the narrowed length says, and the rest of the
      payload is taken for what follows. There is no rest iff nothing was narrowed. */
  lemma NarrowedLength(typ: nibble, tx: byte, payload: seq<byte>)
    requires ValidateTx(typ, |payload| % 65536) == Ok
    ensures var n, wire := |payload| % 65536, FrameBytes(Outgoing(typ, tx, payload));
            && Stream.HasItem(wire) && Stream.FirstItem(wire) == Stream.Whole(Outgoing(typ, tx, payload[..n]))
            && Carries(Stream.FirstItem(wire).frame, typ, tx % 16, payload[..n])
            && wire == Stream.ItemBytes(Stream.FirstItem(wire)) + payload[n..]
            && (payload[n..] == [] <==> |payload| < 65536)
  {
    var n := |payload| % 65536;
    var f := Outgoing(typ, tx, payload[..n]);
    OutgoingCut(typ, tx, payload, n);
    Stream.ItemFirst(Stream.Whole(f), payload[n..]);
    CutBehind(EncodeHeader(f.hdr), payload, n);
  }

  lemma OutgoingCut(typ: nibble, tx: byte, payload: seq<byte>, n: nat)
    requires n == |payload| % 65536 <= MAX_PAYLOAD_LEN
    ensures n <= |payload| && Outgoing(typ, tx, payload[..n]).hdr == Outgoing(typ, tx, payload).hdr
    ensures WellFormed(Outgoing(typ, tx, payload[..n]))
    ensures n == |payload| <==> |payload| < 65536
  {
    assert n % 65536 == n;
  }

  lemma CutBehind(header: seq<byte>, payload: seq<byte>, n: nat)
    requires n <= |payload|
    ensures header + payload == (header + payload[..n]) + payload[n..]
  {
    assert payload == payload[..n] + payload[n..];
  }
}
