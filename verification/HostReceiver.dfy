/** The receive half of the C host: header bytes are parsed in the interrupt,
the payload is read and the frame dispatched by a work item. */
module HostReceiver {
  import opened Wire
  import opened Stream
  import Uart

  datatype Target = Requester | Handler | Nobody

  /** One frame handed over by the work item, and to whom. */
  datatype Upcall = Upcall(target: Target, frame: Frame)

  /** A waiting requester gets every frame, a handler only data of its type. */
  ghost predicate Addressed(u: Upcall, pending: bool, handlers: set<nibble>) {
    && (u.target == Requester <==> pending)
    && (u.target == Handler <==> !pending && u.frame.hdr.length > 0 && u.frame.hdr.typ in handlers)
  }

  ghost predicate AtMostOneUpcall(before: seq<Upcall>, after: seq<Upcall>, pending: bool, handlers: set<nibble>) {
    || after == before
    || (|after| == |before| + 1 && after[..|before|] == before && Addressed(after[|before|], pending, handlers))
  }

  function Accepted(items: seq<Item>): seq<Frame> {
    if items == [] then []
    else
      var before := Accepted(items[..|items| - 1]);
      match items[|items| - 1]
      case Whole(f) => if ValidateRx(f.hdr) == Ok then before + [f] else before
      case Oversize(_) => before
  }

  /** The acknowledgement the host owes for one item, if any. */
  function AckFor(i: Item): seq<Frame> {
    match i
    case Oversize(h) => [Ack(h.typ, h.number, LENGTH_TOO_LONG, false)]
    case Whole(f) =>
      if ValidateRx(f.hdr) == Ok && f.hdr.length > 0 && !f.hdr.noAck
      then [Ack(f.hdr.typ, f.hdr.number, NO_ERROR, false)] else []
  }

  function Acks(items: seq<Item>): seq<Frame> {
    if items == [] then [] else Acks(items[..|items| - 1]) + AckFor(items[|items| - 1])
  }

  /** What the host owes for item `k` of a stream, field by field: an oversized header is
      refused under its own number and nothing is handed over; a valid frame is handed
      over, and acknowledged if it carries data and wants it; an invalid one is dropped. */
  lemma ItemDecided(items: seq<Item>, k: nat)
    requires k < |items| && WfItem(items[k])
    ensures var before, after := Acks(items[..k]), Acks(items[..k + 1]);
            match items[k]
            case Oversize(h) =>
              && |after| == |before| + 1 && before <= after && Accepted(items[..k + 1]) == Accepted(items[..k])
              && Names(after[|before|], h.typ, h.number, LENGTH_TOO_LONG, false)
            case Whole(f) =>
              var valid := f.hdr.reserved == 0 && f.hdr.typ < TYPE_UNKNOWN;
              && Accepted(items[..k + 1]) == Accepted(items[..k]) + (if valid then [f] else [])
              && if valid && f.hdr.length > 0 && !f.hdr.noAck
                 then && |after| == |before| + 1 && before <= after
                      && Names(after[|before|], f.hdr.typ, f.hdr.number, NO_ERROR, false)
                 else after == before
  {
    assert items[..k + 1][..k] == items[..k];
  }

  function Frames(upcalls: seq<Upcall>): (fs: seq<Frame>)
    ensures |fs| == |upcalls|
    ensures forall k :: 0 <= k < |upcalls| ==> fs[k] == upcalls[k].frame
  {
    seq(|upcalls|, k requires 0 <= k < |upcalls| => upcalls[k].frame)
  }

  /** The receiver's state as a value: `got` is the part of the receive buffer
      that has been filled. */
  datatype Receiver = Receiver(
    state: ParsingState, hdr: Header, got: seq<byte>, frames: seq<Frame>, acks: seq<Frame>)

  /** The switch of `bus_rx_isr`, on one byte. */
  function OnHeaderByte(r: Receiver, b: byte): Receiver
    requires r.state == Length2 ==> r.hdr.length % 256 == 0
  {
    match r.state
    case Type =>
      r.(state := SequenceNumber, got := [],
         hdr := r.hdr.(typ := b % 16, noAck := b / 16 % 2 == 1, host := b / 32 % 2 == 1, error := b / 64))
    case SequenceNumber => r.(state := Length1, hdr := r.hdr.(reserved := b % 16, number := b / 16))
    case Length1 => r.(state := Length2, hdr := r.hdr.(length := b as int * 256))
    case Length2 =>
      var h := r.hdr.(length := r.hdr.length + b);
      if h.length > MAX_PAYLOAD_LEN
      then r.(state := Type, hdr := h, acks := r.acks + [Ack(h.typ, h.number, LENGTH_TOO_LONG, false)])
      else r.(state := Data, hdr := h)
    case Data => r
  }

  /** What `bus_rx_work` does once the whole payload is in the buffer. */
  function OnComplete(r: Receiver): Receiver {
    var done := r.(state := Type, got := []);
    var f := Frame(r.hdr, r.got);
    if ValidateRx(r.hdr) != Ok then done
    else if r.hdr.length > 0 && !r.hdr.noAck
    then done.(frames := r.frames + [f], acks := r.acks + [Ack(r.hdr.typ, r.hdr.number, NO_ERROR, false)])
    else done.(frames := r.frames + [f])
  }

  /** Everything read so far: finished items, then the start of the next one. */
  datatype Track = Track(items: seq<Item>, partial: seq<byte>)

  ghost function Consumed(t: Track): seq<byte> {
    Concat(t.items) + t.partial
  }

  /** The header fields hold the header bytes read so far. */
  ghost predicate HeaderSoFar(s: ParsingState, h: Header, p: seq<byte>) {
    match s
    case Type => p == []
    case SequenceNumber => |p| == 1 && FirstByte(h, p)
    case Length1 => |p| == 2 && FirstByte(h, p) && SecondByte(h, p)
    case Length2 => |p| == 3 && FirstByte(h, p) && SecondByte(h, p) && h.length == p[2] as int * 256
    case Data => |p| >= 4 && h == DecodeHeader(p[..4])
  }

  ghost predicate InFrame(r: Receiver, p: seq<byte>) {
    && HeaderSoFar(r.state, r.hdr, p)
    && (r.state == Data ==> |r.got| <= r.hdr.length <= MAX_PAYLOAD_LEN && p[4..] == r.got)
  }

  /** The invariant of every run: the effects so far are those of the finished items. */
  ghost predicate Tracks(r: Receiver, t: Track) {
    && (forall i :: i in t.items ==> WfItem(i))
    && r.frames == Accepted(t.items)
    && r.acks == Acks(t.items)
    && InFrame(r, t.partial)
  }

  ghost function Finish(t: Track, i: Item): Track {
    Track(t.items + [i], [])
  }

  lemma FinishItem(t: Track, i: Item)
    requires t.partial == ItemBytes(i)
    ensures Consumed(Finish(t, i)) == Consumed(t)
    ensures Acks(Finish(t, i).items) == Acks(t.items) + AckFor(i)
    ensures Accepted(Finish(t, i).items) ==
            Accepted(t.items) + (if i.Whole? && ValidateRx(i.frame.hdr) == Ok then [i.frame] else [])
  {
    ConcatAppend(t.items, [i]);
    assert Concat([i]) == ItemBytes(i);
    assert (t.items + [i])[..|t.items|] == t.items;
  }

  ghost function AfterHeaderByte(r: Receiver, t: Track, b: byte): Track
    requires r.state == Length2 ==> r.hdr.length % 256 == 0
  {
    var r' := OnHeaderByte(r, b);
    if r.state == Length2 && r'.state == Type
    then Finish(t, Oversize(r'.hdr)) else Track(t.items, t.partial + [b])
  }

  lemma HeaderComplete(h: Header, p: seq<byte>, b: byte)
    requires HeaderSoFar(Length2, h, p)
    ensures h.(length := h.length + b) == DecodeHeader(p + [b])
    ensures EncodeHeader(h.(length := h.length + b)) == p + [b]
  {
    HeaderRoundTrip(h, p + [b]);
  }

  lemma HeaderByteInFrame(r: Receiver, p: seq<byte>, b: byte)
    requires InFrame(r, p) && r.state != Data
    requires r.state == Length2 ==> r.got == []
    ensures OnHeaderByte(r, b).state != Type ==> InFrame(OnHeaderByte(r, b), p + [b])
  {
    if r.state == Length2 {
      HeaderComplete(r.hdr, p, b);
      assert (p + [b])[..4] == p + [b];
    }
  }

  lemma OversizeTracks(r: Receiver, t: Track, b: byte)
    requires Tracks(r, t) && r.state == Length2 && OnHeaderByte(r, b).state == Type
    ensures Tracks(OnHeaderByte(r, b), Finish(t, Oversize(OnHeaderByte(r, b).hdr)))
    ensures Consumed(Finish(t, Oversize(OnHeaderByte(r, b).hdr))) == Consumed(t) + [b]
  {
    Regroup(Concat(t.items), t.partial, [b]);
    HeaderComplete(r.hdr, t.partial, b);
    FinishItem(Track(t.items, t.partial + [b]), Oversize(OnHeaderByte(r, b).hdr));
  }

  /** A header byte keeps the invariant. */
  lemma HeaderByteTracks(r: Receiver, t: Track, b: byte)
    requires Tracks(r, t) && r.state != Data
    requires r.state == Length2 ==> r.got == []
    ensures Tracks(OnHeaderByte(r, b), AfterHeaderByte(r, t, b))
    ensures Consumed(AfterHeaderByte(r, t, b)) == Consumed(t) + [b]
  {
    if OnHeaderByte(r, b).state == Type {
      OversizeTracks(r, t, b);
    } else {
      Regroup(Concat(t.items), t.partial, [b]);
      HeaderByteInFrame(r, t.partial, b);
    }
  }

  lemma PayloadTracks(r: Receiver, t: Track, bytes: seq<byte>)
    requires Tracks(r, t) && r.state == Data && |r.got| + |bytes| <= r.hdr.length
    ensures Tracks(r.(got := r.got + bytes), Track(t.items, t.partial + bytes))
    ensures Consumed(Track(t.items, t.partial + bytes)) == Consumed(t) + bytes
  {
    var p := t.partial + bytes;
    assert p[..4] == t.partial[..4];
    assert p[4..] == t.partial[4..] + bytes;
    Regroup(Concat(t.items), t.partial, bytes);
  }

  lemma CompleteTracks(r: Receiver, t: Track)
    requires Tracks(r, t) && r.state == Data && |r.got| == r.hdr.length
    ensures Tracks(OnComplete(r), Finish(t, Whole(Frame(r.hdr, r.got))))
    ensures Consumed(Finish(t, Whole(Frame(r.hdr, r.got)))) == Consumed(t)
  {
    HeaderRoundTrip(r.hdr, t.partial[..4]);
    assert t.partial == t.partial[..4] + t.partial[4..];
    FinishItem(t, Whole(Frame(r.hdr, r.got)));
  }

  class RxBus {
    var state: ParsingState
    var hdr: Header
    var bytesRead: nat
    const rxBuf: array<byte>
    var requestPending: bool
    var lastHdr: Header
    var rxSem: bool
    const handlers: set<nibble>
    /** Effects: frames handed over, and acknowledgements transmitted. */
    var upcalls: seq<Upcall>
    var acks: seq<Frame>
    /** What has been read from the FIFO since the bus was opened. */
    ghost var track: Track

    ghost predicate Shape()
      reads this
    {
      && rxBuf.Length == MAX_PAYLOAD_LEN
      && bytesRead <= MAX_PAYLOAD_LEN
      && (state == Data ==> bytesRead < hdr.length || hdr.length == 0)
      && (state == Length2 ==> bytesRead == 0 && hdr.length % 256 == 0)
      && (state == SequenceNumber || state == Length1 ==> bytesRead == 0)
    }

    ghost function Value(): Receiver
      requires Shape()
      reads this, rxBuf
    {
      Receiver(state, hdr, rxBuf[..bytesRead], Frames(upcalls), acks)
    }

    ghost predicate Valid()
      reads this, rxBuf
    {
      Shape() && Tracks(Value(), track)
    }

    constructor (handlers: set<nibble>)
      ensures Valid() && Consumed(track) == [] && state == Type && upcalls == [] && acks == []
      ensures !requestPending && this.handlers == handlers
      ensures fresh(rxBuf)
    {
      state, bytesRead, requestPending, rxSem := Type, 0, false, false;
      hdr := Header(0, false, false, 0, 0, 0, 0);
      lastHdr := Header(0, false, false, 0, 0, 0, 0);
      rxBuf := new byte[MAX_PAYLOAD_LEN];
      this.handlers := handlers;
      upcalls, acks, track := [], [], Track([], []);
    }

    /** One byte of the switch, in place. */
    method HeaderByte(b: byte)
      requires Shape() && state != Data
      modifies this`state, this`hdr, this`bytesRead, this`acks
      ensures Shape()
      ensures Value() == OnHeaderByte(old(Value()), b)
      ensures state == Data ==> bytesRead == 0
    {
      match state
      case Type =>
        hdr := hdr.(typ := b % 16, noAck := b / 16 % 2 == 1, host := b / 32 % 2 == 1, error := b / 64);
        bytesRead, state := 0, SequenceNumber;
      case SequenceNumber =>
        hdr := hdr.(reserved := b % 16, number := b / 16);
        state := Length1;
      case Length1 =>
        hdr := hdr.(length := b as int * 256);
        state := Length2;
      case Length2 =>
        hdr := hdr.(length := hdr.length + b);
        if hdr.length > MAX_PAYLOAD_LEN {
          acks := acks + [Ack(hdr.typ, hdr.number, LENGTH_TOO_LONG, false)];
          state := Type;
        } else {
          state := Data;
        }
    }

    method TrackHeaderByte(b: byte)
      requires Valid() && state != Data
      modifies this`state, this`hdr, this`bytesRead, this`acks, this`track
      ensures Valid() && Consumed(track) == old(Consumed(track)) + [b]
    {
      HeaderByteTracks(Value(), track, b);
      track := AfterHeaderByte(Value(), track, b);
      HeaderByte(b);
    }

    /** `bus_rx_isr`: reads header bytes until the FIFO is empty or a header is complete. */
    method RxIsr(port: Uart.Port)
      requires Valid()
      modifies this`state, this`hdr, this`bytesRead, this`acks, this`track, port
      ensures Valid()
      ensures Consumed(track) + port.rx == old(Consumed(track) + port.rx)
      ensures |port.rx| <= old(|port.rx|)
      ensures state == Data || port.rx == []
      ensures old(state) == Data ==> state == Data && port.rx == old(port.rx) && hdr == old(hdr)
      ensures old(state != Data && port.rx != []) ==> |port.rx| < old(|port.rx|)
    {
      while state != Data
        invariant Valid()
        invariant Consumed(track) + port.rx == old(Consumed(track) + port.rx)
        invariant |port.rx| <= old(|port.rx|)
        invariant old(state) == Data ==> state == Data && port.rx == old(port.rx) && hdr == old(hdr)
        invariant state == old(state) || |port.rx| < old(|port.rx|)
        decreases |port.rx|
      {
        var got := port.Read(1);
        if |got| != 1 {
          break;
        }
        assert got == [got[0]];
        Regroup(Consumed(track), got, port.rx);
        TrackHeaderByte(got[0]);
      }
    }

    /** The payload stage, where the payload may already be complete. */
    ghost predicate Filling()
      reads this, rxBuf
    {
      && rxBuf.Length == MAX_PAYLOAD_LEN
      && state == Data && bytesRead <= hdr.length <= MAX_PAYLOAD_LEN
      && Tracks(Receiver(state, hdr, rxBuf[..bytesRead], Frames(upcalls), acks), track)
    }

    /** One `uart_fifo_read` into the receive buffer. */
    method ReadChunk(port: Uart.Port) returns (got: seq<byte>)
      requires Filling() && bytesRead < hdr.length
      modifies this`bytesRead, this`track, rxBuf, port
      ensures Filling() && bytesRead == old(bytesRead) + |got|
      ensures Consumed(track) + port.rx == old(Consumed(track) + port.rx)
      ensures |port.rx| == old(|port.rx|) - |got|
      ensures got == [] <==> old(port.rx) == []
    {
      ghost var r := Receiver(state, hdr, rxBuf[..bytesRead], Frames(upcalls), acks);
      got := port.Read(hdr.length - bytesRead);
      forall k | 0 <= k < |got| {
        rxBuf[bytesRead + k] := got[k];
      }
      assert rxBuf[..bytesRead + |got|] == r.got + got;
      PayloadTracks(r, track, got);
      Regroup(Consumed(track), got, port.rx);
      bytesRead, track := bytesRead + |got|, Track(track.items, track.partial + got);
    }

    /** The payload loop of `bus_rx_work`. */
    method ReadPayload(port: Uart.Port)
      requires Filling()
      modifies this`bytesRead, this`track, rxBuf, port
      ensures Filling()
      ensures Consumed(track) + port.rx == old(Consumed(track) + port.rx)
      ensures bytesRead - old(bytesRead) == old(|port.rx|) - |port.rx| >= 0
      ensures bytesRead < hdr.length ==> port.rx == []
    {
      while bytesRead < hdr.length
        invariant Filling()
        invariant Consumed(track) + port.rx == old(Consumed(track) + port.rx)
        invariant bytesRead - old(bytesRead) == old(|port.rx|) - |port.rx| >= 0
        decreases |port.rx|
      {
        var got := ReadChunk(port);
        if got == [] {
          break;
        }
      }
    }

    /** The tail of `bus_rx_work`: validate, acknowledge, hand over. */
    method Dispatch()
      requires rxBuf.Length == MAX_PAYLOAD_LEN && state == Data && bytesRead == hdr.length <= MAX_PAYLOAD_LEN
      modifies this`state, this`bytesRead, this`acks, this`upcalls, this`lastHdr, this`rxSem
      ensures Shape() && state == Type
      ensures if requestPending && ValidateRx(hdr) == Ok then rxSem && lastHdr == hdr
              else rxSem == old(rxSem) && lastHdr == old(lastHdr)
      ensures Value() == OnComplete(old(Receiver(state, hdr, rxBuf[..bytesRead], Frames(upcalls), acks)))
      ensures hdr.reserved != 0 || hdr.typ >= TYPE_UNKNOWN ==> upcalls == old(upcalls) && acks == old(acks)
      ensures hdr.reserved == 0 && hdr.typ < TYPE_UNKNOWN ==>
                && |upcalls| == old(|upcalls|) + 1 && upcalls[..old(|upcalls|)] == old(upcalls)
                && upcalls[old(|upcalls|)].frame == Frame(hdr, rxBuf[..hdr.length])
                && (upcalls[old(|upcalls|)].target == Requester <==> requestPending)
                && (upcalls[old(|upcalls|)].target == Handler <==>
                      !requestPending && hdr.length > 0 && hdr.typ in handlers)
      ensures hdr.reserved == 0 && hdr.typ < TYPE_UNKNOWN ==>
                if hdr.length > 0 && !hdr.noAck
                then && |acks| == old(|acks|) + 1 && acks[..old(|acks|)] == old(acks)
                     && Names(acks[old(|acks|)], hdr.typ, hdr.number, NO_ERROR, false)
                else acks == old(acks)
    {
      if ValidateRx(hdr) == Ok {
        var target := Nobody;
        if hdr.length > 0 && !hdr.noAck {
          acks := acks + [Ack(hdr.typ, hdr.number, NO_ERROR, false)];
        }
        if requestPending {
          lastHdr, rxSem, target := hdr, true, Requester;
        } else if hdr.length > 0 && hdr.typ in handlers {
          target := Handler;
        }
        var f := Frame(hdr, rxBuf[..hdr.length]);
        upcalls := upcalls + [Upcall(target, f)];
        assert Frames(upcalls) == old(Frames(upcalls)) + [f];
      }
      state, bytesRead := Type, 0;
    }

    method CompleteFrame()
      requires Filling() && bytesRead == hdr.length
      modifies this`state, this`bytesRead, this`acks, this`upcalls, this`lastHdr, this`rxSem, this`track
      ensures Valid() && state == Type && Consumed(track) == old(Consumed(track))
      ensures AtMostOneUpcall(old(upcalls), upcalls, requestPending, handlers)
    {
      ghost var r := Receiver(state, hdr, rxBuf[..bytesRead], Frames(upcalls), acks);
      CompleteTracks(r, track);
      track := Finish(track, Whole(Frame(r.hdr, r.got)));
      Dispatch();
    }

    /** `bus_rx_work`, run only while a frame is in its payload stage. */
    method RxWork(port: Uart.Port)
      requires Valid() && state == Data
      modifies this, rxBuf, port
      ensures Valid() && requestPending == old(requestPending)
      ensures Consumed(track) + port.rx == old(Consumed(track) + port.rx)
      ensures |port.rx| <= old(|port.rx|)
      ensures old(port.rx != [] && hdr.length > 0) ==> |port.rx| < old(|port.rx|)
      ensures state == (if old(|port.rx| < hdr.length - bytesRead) then Data else Type)
      ensures state == Data ==> port.rx == [] && hdr == old(hdr)
      ensures AtMostOneUpcall(old(upcalls), upcalls, requestPending, handlers)
    {
      ReadPayload(port);
      if bytesRead == hdr.length {
        CompleteFrame();
      }
    }
  }

  /** One step of the surroundings or of the scheduler. */
  datatype RxStep = Deliver(chunk: seq<byte>) | Interrupt | Work | SetPending(pending: bool)

  function Delivered(schedule: seq<RxStep>): seq<byte> {
    if schedule == [] then []
    else Delivered(schedule[..|schedule| - 1]) +
         (match schedule[|schedule| - 1] case Deliver(c) => c case _ => [])
  }

  /** Whether a requester is waiting after these steps. */
  function Pending(schedule: seq<RxStep>): bool {
    if schedule == [] then false
    else match schedule[|schedule| - 1]
      case SetPending(b) => b
      case _ => Pending(schedule[..|schedule| - 1])
  }

  /** Upcall `k`, made by step `m` or by the settling behind the last one: its frame had
      been delivered, and it goes where the steps before say. */
  ghost predicate Made(schedule: seq<RxStep>, m: nat, k: nat, u: Upcall, handlers: set<nibble>) {
    && m <= |schedule| && (m < |schedule| ==> schedule[m] == Work)
    && k < |Accepted(Parse(Delivered(schedule[..m])).items)|
    && Addressed(u, Pending(schedule[..m]), handlers)
  }

  /** Every upcall of the first `n` steps with the step that made it. */
  ghost predicate Marked(schedule: seq<RxStep>, n: nat, marks: seq<nat>, upcalls: seq<Upcall>, handlers: set<nibble>) {
    && |marks| == |upcalls|
    && (forall k :: 0 <= k < |marks| ==> marks[k] < n)
    && (forall k :: 0 <= k < |marks| ==> Made(schedule, marks[k], k, upcalls[k], handlers))
    && (forall j, k :: 0 <= j < k < |marks| ==> marks[j] < marks[k])
  }

  /** Between frames, and while a payload is incomplete, the parse is the track. */
  lemma ParseOfTrack(r: Receiver, t: Track)
    requires Tracks(r, t)
    requires r.state == Data ==> |r.got| < r.hdr.length
    ensures Parse(Consumed(t)) == Parsed(t.items, t.partial)
  {
    assert r.state == Data ==> |t.partial[4..]| == |r.got|;
    ParseComplete(t.items, t.partial);
  }

  /** One scheduler step on the bus and its port. */
  method Perform(bus: RxBus, port: Uart.Port, step: RxStep)
    requires bus.Valid()
    modifies bus, bus.rxBuf, port
    ensures bus.Valid()
    ensures Consumed(bus.track) + port.rx ==
            old(Consumed(bus.track) + port.rx) + (match step case Deliver(c) => c case _ => [])
    ensures bus.requestPending == (match step case SetPending(b) => b case _ => old(bus.requestPending))
    ensures if step == Work then AtMostOneUpcall(old(bus.upcalls), bus.upcalls, bus.requestPending, bus.handlers)
            else bus.upcalls == old(bus.upcalls)
  {
    match step
    case Deliver(chunk) =>
      port.Deliver(chunk);
    case Interrupt =>
      bus.RxIsr(port);
    case Work =>
      if bus.state == Data {
        bus.RxWork(port);
      }
    case SetPending(b) =>
      bus.requestPending := b;
  }

  /** Upcalls made while `pending` did not change. */
  ghost predicate Further(before: seq<Upcall>, after: seq<Upcall>, pending: bool, handlers: set<nibble>) {
    && before <= after
    && forall k :: |before| <= k < |after| ==> Addressed(after[k], pending, handlers)
  }

  lemma FurtherOne(before: seq<Upcall>, mid: seq<Upcall>, after: seq<Upcall>, pending: bool, handlers: set<nibble>)
    requires Further(before, mid, pending, handlers) && AtMostOneUpcall(mid, after, pending, handlers)
    ensures Further(before, after, pending, handlers)
  {
    assert after == mid || after == mid + [after[|mid|]];
  }

  /** Lets the interrupt and the work item finish what is waiting. */
  method Settle(bus: RxBus, port: Uart.Port)
    requires bus.Valid()
    modifies bus, bus.rxBuf, port
    ensures bus.Valid() && port.rx == []
    ensures bus.state == Data ==> bus.bytesRead < bus.hdr.length
    ensures Consumed(bus.track) == old(Consumed(bus.track) + port.rx)
    ensures Further(old(bus.upcalls), bus.upcalls, old(bus.requestPending), bus.handlers)
  {
    while port.rx != [] || (bus.state == Data && bus.hdr.length == 0)
      invariant bus.Valid()
      invariant Consumed(bus.track) + port.rx == old(Consumed(bus.track) + port.rx)
      invariant bus.requestPending == old(bus.requestPending)
      invariant Further(old(bus.upcalls), bus.upcalls, bus.requestPending, bus.handlers)
      decreases |port.rx|, if bus.state == Data then 1 else 0
    {
      bus.RxIsr(port);
      if bus.state == Data {
        ghost var mid := bus.upcalls;
        bus.RxWork(port);
        FurtherOne(old(bus.upcalls), mid, bus.upcalls, bus.requestPending, bus.handlers);
      }
    }
    assert Consumed(bus.track) + port.rx == Consumed(bus.track);
  }

  lemma {:induction false} AcceptedAppend(a: seq<Item>, b: seq<Item>)
    ensures |Accepted(a + b)| >= |Accepted(a)|
  {
    if b == [] {
      assert a + b == a;
    } else {
      assert (a + b)[..|a + b| - 1] == a + b[..|b| - 1];
      AcceptedAppend(a, b[..|b| - 1]);
    }
  }

  /** What has been handed over had been delivered. */
  lemma HandedOverDelivered(r: Receiver, t: Track, rx: seq<byte>)
    requires Tracks(r, t)
    ensures |r.frames| <= |Accepted(Parse(Consumed(t) + rx).items)|
  {
    Regroup(Concat(t.items), t.partial, rx);
    ParseBehind(t.items, t.partial + rx);
    AcceptedAppend(t.items, Parse(t.partial + rx).items);
  }

  lemma MarkedNow(schedule: seq<RxStep>, n: nat, marks: seq<nat>, before: seq<Upcall>, u: Upcall,
                  handlers: set<nibble>)
    requires Marked(schedule, n, marks, before, handlers) && Made(schedule, n, |before|, u, handlers)
    ensures Marked(schedule, n + 1, marks + [n], before + [u], handlers)
  {
  }

  lemma OneStep(schedule: seq<RxStep>, n: nat)
    requires n < |schedule|
    ensures Delivered(schedule[..n + 1]) ==
            Delivered(schedule[..n]) + (match schedule[n] case Deliver(c) => c case _ => [])
    ensures Pending(schedule[..n + 1]) == (match schedule[n] case SetPending(b) => b case _ => Pending(schedule[..n]))
  {
    assert schedule[..n + 1][..n] == schedule[..n];
  }

  lemma WorkMarked(schedule: seq<RxStep>, n: nat, marks: seq<nat>, before: seq<Upcall>, u: Upcall,
                   handlers: set<nibble>)
    requires n < |schedule| && schedule[n] == Work && Marked(schedule, n, marks, before, handlers)
    requires Addressed(u, Pending(schedule[..n]), handlers)
    requires |before| < |Accepted(Parse(Delivered(schedule[..n])).items)|
    ensures Marked(schedule, n + 1, marks + [n], before + [u], handlers)
  {
    assert Made(schedule, n, |before|, u, handlers);
    MarkedNow(schedule, n, marks, before, u, handlers);
  }

  lemma StepMarked(schedule: seq<RxStep>, n: nat, marks: seq<nat>, before: seq<Upcall>, after: seq<Upcall>,
                   handlers: set<nibble>)
    requires n < |schedule| && schedule[n] == Work && Marked(schedule, n, marks, before, handlers)
    requires AtMostOneUpcall(before, after, Pending(schedule[..n]), handlers)
    requires |after| <= |Accepted(Parse(Delivered(schedule[..n])).items)|
    ensures Marked(schedule, n + 1, if |after| > |before| then marks + [n] else marks, after, handlers)
  {
    if |after| > |before| {
      assert after == before + [after[|before|]];
      WorkMarked(schedule, n, marks, before, after[|before|], handlers);
    }
  }

  /** One step, with its number noted if it hands a frame over. */
  method PerformMarked(bus: RxBus, port: Uart.Port, schedule: seq<RxStep>, n: nat, marks: seq<nat>)
    returns (marks': seq<nat>)
    requires n < |schedule| && bus.Valid() && Consumed(bus.track) + port.rx == Delivered(schedule[..n])
    requires bus.requestPending == Pending(schedule[..n])
    requires Marked(schedule, n, marks, bus.upcalls, bus.handlers)
    modifies bus, bus.rxBuf, port
    ensures bus.Valid() && Consumed(bus.track) + port.rx == Delivered(schedule[..n + 1])
    ensures bus.requestPending == Pending(schedule[..n + 1])
    ensures Marked(schedule, n + 1, marks', bus.upcalls, bus.handlers)
  {
    OneStep(schedule, n);
    ghost var before := bus.upcalls;
    var count := |bus.upcalls|;
    Perform(bus, port, schedule[n]);
    if schedule[n] == Work {
      assert Delivered(schedule[..n]) + [] == Delivered(schedule[..n]);
      HandedOverDelivered(bus.Value(), bus.track, port.rx);
      StepMarked(schedule, n, marks, before, bus.upcalls, bus.handlers);
    }
    marks' := if |bus.upcalls| > count then marks + [n] else marks;
  }

  /** A whole schedule. */
  method PerformAll(bus: RxBus, port: Uart.Port, schedule: seq<RxStep>) returns (marks: seq<nat>)
    requires bus.Valid() && Consumed(bus.track) + port.rx == [] && !bus.requestPending && bus.upcalls == []
    modifies bus, bus.rxBuf, port
    ensures bus.Valid() && Consumed(bus.track) + port.rx == Delivered(schedule)
    ensures bus.requestPending == Pending(schedule)
    ensures Marked(schedule, |schedule|, marks, bus.upcalls, bus.handlers)
  {
    marks := [];
    for n := 0 to |schedule|
      invariant bus.Valid() && Consumed(bus.track) + port.rx == Delivered(schedule[..n])
      invariant bus.requestPending == Pending(schedule[..n])
      invariant Marked(schedule, n, marks, bus.upcalls, bus.handlers)
    {
      marks := PerformMarked(bus, port, schedule, n, marks);
    }
    assert schedule[..|schedule|] == schedule;
  }

  /** Runs any schedule, then lets the receiver settle. Whatever the deliveries,
      the interleaving and the partial reads were, the frames handed over and the
      acknowledgements sent are those of the whole-stream parse. Upcall `k` is made by
      step `marks[k]`, or by the settling behind the last step: its frame had been
      delivered by then, and it goes to the requester iff one was waiting then, and
      else to a handler iff it carries data of a type with one. */
  method Receive(schedule: seq<RxStep>, greedy: bool, handlers: set<nibble>)
    returns (upcalls: seq<Upcall>, acks: seq<Frame>, state: ParsingState, marks: seq<nat>)
    ensures Frames(upcalls) == Accepted(Parse(Delivered(schedule)).items)
    ensures acks == Acks(Parse(Delivered(schedule)).items)
    ensures state == Type <==> Parse(Delivered(schedule)).rest == []
    ensures |marks| == |upcalls|
    ensures forall k :: 0 <= k < |marks| ==>
              && marks[k] <= |schedule| && (marks[k] < |schedule| ==> schedule[marks[k]] == Work)
              && k < |Accepted(Parse(Delivered(schedule[..marks[k]])).items)|
    ensures forall j, k :: 0 <= j < k < |marks| ==> marks[j] < marks[k] || marks[j] == marks[k] == |schedule|
    ensures forall k :: 0 <= k < |marks| ==>
              (upcalls[k].target == Requester <==> Pending(schedule[..marks[k]]))
    ensures forall k :: 0 <= k < |marks| ==>
              (upcalls[k].target == Handler <==>
                 && !Pending(schedule[..marks[k]])
                 && upcalls[k].frame.hdr.length > 0 && upcalls[k].frame.hdr.typ in handlers)
  {
    var port := new Uart.Port(greedy);
    var bus := new RxBus(handlers);
    marks := PerformAll(bus, port, schedule);
    ghost var worked := bus.upcalls;
    Settle(bus, port);
    ParseOfTrack(bus.Value(), bus.track);
    upcalls, acks, state := bus.upcalls, bus.acks, bus.state;
    ghost var before := marks;
    marks := marks + seq(|upcalls| - |marks|, _ => |schedule|);
    AllMade(schedule, before, worked, marks, upcalls, handlers);
  }

  lemma AllMade(schedule: seq<RxStep>, before: seq<nat>, worked: seq<Upcall>, marks: seq<nat>, upcalls: seq<Upcall>,
                handlers: set<nibble>)
    requires Marked(schedule, |schedule|, before, worked, handlers)
    requires Further(worked, upcalls, Pending(schedule), handlers)
    requires |upcalls| == |Accepted(Parse(Delivered(schedule)).items)|
    requires |marks| == |upcalls| && before <= marks
    requires forall k :: |before| <= k < |marks| ==> marks[k] == |schedule|
    ensures forall k :: 0 <= k < |marks| ==> Made(schedule, marks[k], k, upcalls[k], handlers)
    ensures forall j, k :: 0 <= j < k < |marks| ==> marks[j] < marks[k] || marks[j] == marks[k] == |schedule|
  {
    assert schedule[..|schedule|] == schedule;
  }
}
