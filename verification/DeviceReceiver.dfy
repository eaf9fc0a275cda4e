/** The device's receive path: header bytes in the UART interrupt, payload read
by the work handler straight into a client's buffer. */
module DeviceReceiver {
  import opened Wire
  import opened Protocol
  import opened Landing
  import opened PayloadLoop
  import Uart

  /** A traffic client. A fixed-base client (vserial, OpenThread) hands out the same
      address on every acquisition; an advancing one (Bluetooth) hands out the
      address after what has been committed so far. `buf` extends past `capacity`
      so that a write outside the client's buffer has a place in the model. */
  class Client {
    const advancing: bool
    const capacity: nat
    const buf: array<byte>
    var fill: nat

    ghost predicate Valid()
      reads this
    {
      buf.Length == capacity + MAX_PAYLOAD_LEN
    }

    constructor (advancing: bool, capacity: nat)
      ensures Valid() && this.advancing == advancing && this.capacity == capacity && fill == 0
      ensures fresh(buf)
    {
      this.advancing, this.capacity, fill := advancing, capacity, 0;
      buf := new byte[capacity + MAX_PAYLOAD_LEN];
    }

    function Base(): nat
      reads this
    {
      if advancing then fill else 0
    }

    predicate CanAcquire(len: nat)
      reads this
    {
      Base() + len <= capacity
    }

    /** `uart_fifo_read` into the buffer, from index `at` on. */
    method ReadInto(port: Uart.Port, at: nat, max: nat) returns (got: seq<byte>)
      requires Valid() && at + max <= buf.Length
      modifies port, buf
      ensures old(port.rx) == got + port.rx && |got| <= max
      ensures got == [] <==> max == 0 || old(port.rx) == []
      ensures port.greedy ==> |got| == max || port.rx == []
      ensures buf[..] == Store(old(buf[..]), at, got)
    {
      got := port.Read(max);
      forall k | 0 <= k < |got| {
        buf[at + k] := got[k];
      }
    }

    method Commit(len: nat)
      modifies this`fill
      ensures fill == if advancing then old(fill) + len else old(fill)
    {
      if advancing {
        fill := fill + len;
      }
    }

    /** The message a client is told about starts at the beginning of its buffer. */
    method Complete(len: nat) returns (message: seq<byte>)
      requires Valid() && len <= buf.Length
      modifies this`fill
      ensures message == buf[..len]
      ensures fill == if advancing then 0 else old(fill)
    {
      message := buf[..len];
      if advancing {
        fill := 0;
      }
    }
  }

  /** What the interrupt leaves behind after `rx` has arrived on top of the
      `partial` header: the new partial header (four bytes when the header is
      complete and its payload stage begins), the bytes not read, and the error
      acknowledgements sent. */
  datatype Scanned = Scanned(partial: seq<byte>, rx: seq<byte>, acks: seq<Frame>)

  /** One header byte: a length-0 frame that is no query is dropped, and a length
      above the maximum is refused, both without a payload stage. */
  function ScanByte(partial: seq<byte>, b: byte): Scanned
    requires |partial| < 4
  {
    if |partial| < 3 then Scanned(partial + [b], [], [])
    else
      var h := DecodeHeader(partial + [b]);
      if h.length == 0 && h.typ != TYPE_PROTOCOL_INFO then Scanned([], [], [])
      else if h.length > MAX_PAYLOAD_LEN
      then Scanned([], [], [Ack(h.typ, h.number, LENGTH_TOO_LONG, true)])
      else Scanned(partial + [b], [], [])
  }

  function Scan(partial: seq<byte>, rx: seq<byte>): Scanned
    decreases |rx|
  {
    if |partial| >= 4 || rx == [] then Scanned(partial, rx, [])
    else
      var now := ScanByte(partial, rx[0]);
      var later := Scan(now.partial, rx[1..]);
      later.(acks := now.acks + later.acks)
  }

  lemma {:induction false} ScanPrefix(all: seq<byte>, k: nat)
    requires k <= 3 < |all|
    ensures Scan([], all) == Scan(all[..k], all[k..])
  {
    if k == 0 {
      assert all[..0] == [] && all[0..] == all;
    } else {
      ScanPrefix(all, k - 1);
      var rx := all[k - 1..];
      assert all[..k - 1] + [rx[0]] == all[..k] && rx[1..] == all[k..];
      assert Scan(all[..k], all[k..]).acks == [] + Scan(all[..k], all[k..]).acks;
    }
  }

  /** What the interrupt makes of the next header: a length-0 frame that is no query
      leaves no trace, an oversized one is refused once under its own number and the
      scan goes on behind it, and at any other it stops for the payload stage. */
  lemma ScanDecided(all: seq<byte>)
    requires |all| >= 4
    ensures var h, s, t := DecodeHeader(all[..4]), Scan([], all), Scan([], all[4..]);
            if h.length == 0 && h.typ != TYPE_PROTOCOL_INFO then s == t
            else if h.length <= MAX_PAYLOAD_LEN then s == Scanned(all[..4], all[4..], [])
            else && s.partial == t.partial && s.rx == t.rx && s.acks != [] && s.acks[1..] == t.acks
                 && Names(s.acks[0], h.typ, h.number, LENGTH_TOO_LONG, true)
  {
    ScanPrefix(all, 3);
    var rx := all[3..];
    assert all[..3] + [rx[0]] == all[..4] && rx[1..] == all[4..];
    var t := Scan([], all[4..]);
    assert [] + t.acks == t.acks;
  }

  function Repeat(f: Frame, n: nat): (s: seq<Frame>)
    ensures |s| == n && forall k :: 0 <= k < n ==> s[k] == f
  {
    if n == 0 then [] else Repeat(f, n - 1) + [f]
  }

  /** `acks` sent before a scan. */
  function After(acks: seq<Frame>, s: Scanned): Scanned {
    s.(acks := acks + s.acks)
  }

  lemma ScanOne(sent: seq<Frame>, partial: seq<byte>, rx: seq<byte>)
    requires |partial| < 4 && rx != []
    ensures var now := ScanByte(partial, rx[0]);
            After(sent, Scan(partial, rx)) == After(sent + now.acks, Scan(now.partial, rx[1..]))
  {
    var now := ScanByte(partial, rx[0]);
    AfterBoth(sent, now.acks, Scan(now.partial, rx[1..]));
  }

  lemma AfterBoth(sent: seq<Frame>, acks: seq<Frame>, later: Scanned)
    ensures After(sent, later.(acks := acks + later.acks)) == After(sent + acks, later)
  {
    assert sent + (acks + later.acks) == (sent + acks) + later.acks;
  }

  /** The struct holds the header bytes read so far; until the last byte arrives the
      length is in wire order, its first byte in the low half. */
  ghost predicate HeaderHolds(s: ParsingState, h: Header, p: seq<byte>) {
    match s
    case Type => p == []
    case SequenceNumber => |p| == 1 && FirstByte(h, p)
    case Length1 => |p| == 2 && FirstByte(h, p) && SecondByte(h, p)
    case Length2 => |p| == 3 && FirstByte(h, p) && SecondByte(h, p) && h.length % 256 == p[2]
    case Data => |p| == 4 && h == DecodeHeader(p)
  }

  lemma LowHalf(length: word, b: byte)
    ensures length / 256 * 256 + b < 65536 && (length / 256 * 256 + b) % 256 == b
  {
  }

  lemma HeaderDone(h: Header, p: seq<byte>, b: byte)
    requires HeaderHolds(Length2, h, p)
    ensures h.(length := (h.length % 256) as int * 256 + b) == DecodeHeader(p + [b])
  {
  }

  lemma KeptCourse(o: Snap, s: Snap, t: Snap, again: bool, got: seq<byte>, mem: seq<byte>, at: nat,
                   before: seq<seq<byte>>, course: Course) returns (course': Course)
    requires Running(o, s, true, mem, at, before, course) && Turned(s, t, again, got)
    ensures Running(o, t, again, mem, at, before, course')
  {
    RunningTurn(o, s, t, again, got, mem, at, before, course);
    course' := NextCourse(course, s, t, got);
  }

  class SerialDevice {
    var state: ParsingState
    var hdr: Header
    var bytesRead: nat
    var rxNumber: nibble
    var txNumber: nibble
    const mask: word
    const wired: set<nibble>
    /** Effects: frames transmitted, and messages the clients were told about. */
    var sent: seq<Frame>
    var completed: seq<Frame>
    /** The header bytes of the frame in progress. */
    ghost var partial: seq<byte>

    ghost predicate Valid()
      reads this
    {
      && HeaderHolds(state, hdr, partial)
      && (state != Type && state != Data ==> bytesRead == 0)
      && (state == Data ==>
            && hdr.length <= MAX_PAYLOAD_LEN
            && (bytesRead < hdr.length || (bytesRead == hdr.length == 0 && hdr.typ == TYPE_PROTOCOL_INFO)))
    }

    ghost function Value(): Device
      reads this
    {
      Device(rxNumber, txNumber, mask, wired, completed, false)
    }

    /** `initialize_uart`. */
    constructor (mask: word, wired: set<nibble>)
      ensures Valid() && state == Type && sent == []
      ensures Value() == Device(0, 0, mask, wired, [], false)
    {
      state, bytesRead, rxNumber, txNumber := Type, 0, 0, 0;
      hdr := Header(0, false, false, 0, 0, 0, 0);
      this.mask, this.wired := mask, wired;
      sent, completed, partial := [], [], [];
    }

    /** One byte of `uart_irq_callback`'s switch. */
    method HeaderByte(b: byte)
      requires Valid() && state != Data
      modifies this`state, this`hdr, this`bytesRead, this`sent, this`partial
      ensures Valid()
      ensures partial == ScanByte(old(partial), b).partial
      ensures sent == old(sent) + ScanByte(old(partial), b).acks
      ensures state != Type ==> bytesRead == 0
    {
      ghost var p := partial + [b];
      match state
      case Type =>
        hdr := hdr.(typ := b % 16, noAck := b / 16 % 2 == 1, host := b / 32 % 2 == 1, error := b / 64);
        state, bytesRead, partial := SequenceNumber, 0, p;
      case SequenceNumber =>
        hdr := hdr.(reserved := b % 16, number := b / 16);
        state, partial := Length1, p;
      case Length1 =>
        LowHalf(hdr.length, b);
        hdr := hdr.(length := hdr.length / 256 * 256 + b);
        state, partial := Length2, p;
      case Length2 =>
        HeaderDone(hdr, partial, b);
        hdr := hdr.(length := (hdr.length % 256) as int * 256 + b);
        if hdr.length == 0 && hdr.typ != TYPE_PROTOCOL_INFO {
          state, partial := Type, [];
        } else if hdr.length > MAX_PAYLOAD_LEN {
          sent := sent + [Ack(hdr.typ, hdr.number, LENGTH_TOO_LONG, true)];
          state, partial := Type, [];
        } else {
          state, partial := Data, p;
        }
    }

    /** `uart_irq_callback`. */
    method UartIrq(port: Uart.Port)
      requires Valid()
      modifies this`state, this`hdr, this`bytesRead, this`sent, this`partial, port
      ensures Valid()
      ensures Scanned(partial, port.rx, sent) == After(old(sent), Scan(old(partial), old(port.rx)))
      ensures old(state) == Data ==> state == Data && hdr == old(hdr) && bytesRead == old(bytesRead)
      ensures old(state) != Data && state == Data ==> bytesRead == 0
    {
      while state != Data
        invariant Valid()
        invariant After(sent, Scan(partial, port.rx)) == After(old(sent), Scan(old(partial), old(port.rx)))
        invariant old(state) == Data ==> state == Data && hdr == old(hdr) && bytesRead == old(bytesRead)
        invariant old(state) != Data && state == Data ==> bytesRead == 0
        decreases |port.rx|
      {
        ghost var before := port.rx;
        var got := port.Read(1);
        if |got| != 1 {
          break;
        }
        assert before[0] == got[0] && before[1..] == port.rx;
        ScanOne(sent, partial, before);
        HeaderByte(got[0]);
      }
    }

    ghost function Now(port: Uart.Port, client: Client): Snap
      reads this, port, client, client.buf
    {
      Snap(state, hdr, bytesRead, partial, Value(), sent, client.buf[..], client.fill, port.rx,
           client.advancing, client.capacity, port.greedy)
    }

    /** A whole frame is in the client's buffer: check its number. */
    method Judge(client: Client)
      requires client.Valid() && hdr.typ in wired && hdr.typ != TYPE_PROTOCOL_INFO && 0 < hdr.length <= MAX_PAYLOAD_LEN
      modifies this`rxNumber, this`sent, this`completed, client`fill
      ensures var r := React(old(Value()), Frame(hdr, client.buf[..hdr.length]));
              Value() == r.dev && sent == old(sent) + r.replies
      ensures client.fill == if client.advancing && old(rxNumber) == hdr.number then 0 else old(client.fill)
    {
      if rxNumber != hdr.number {
        sent := sent + [Ack(hdr.typ, rxNumber, INCORRECT_SEQUENCE_NUMBER, true)];
        rxNumber := 0;
      } else {
        client.Commit(hdr.length);
        var message := client.Complete(hdr.length);
        completed := completed + [Frame(hdr, message)];
        rxNumber := if rxNumber >= SEQUENCE_NUMBER_MAX then 0 else rxNumber + 1;
        if !hdr.noAck {
          sent := sent + [Ack(hdr.typ, hdr.number, NO_ERROR, true)];
        }
      }
    }

    /** `n` more payload bytes are in the buffer: commit them, or judge the whole frame. */
    method Account(ghost port: Uart.Port, client: Client, n: nat)
      requires client.Valid() && Now(port, client).Reading() && 0 < n <= hdr.length - bytesRead
      modifies this`state, this`bytesRead, this`partial, this`rxNumber, this`sent, this`completed, client`fill
      ensures Now(port, client) == Accounted(old(Now(port, client)), n)
    {
      bytesRead := bytesRead + n;
      if bytesRead >= hdr.length {
        Judge(client);
        state, bytesRead, partial := Type, 0, [];
      } else {
        client.Commit(n);
      }
    }

    /** Reads what is there into the client's buffer and accounts for it. */
    method TakePiece(port: Uart.Port, client: Client) returns (got: seq<byte>)
      requires client.Valid() && Now(port, client).Reading() && Now(port, client).CanAcquire()
      modifies this, port, client`fill, client.buf
      ensures got <= old(port.rx) && |got| <= old(hdr.length - bytesRead)
      ensures got == [] <==> old(port.rx) == []
      ensures got == [] ==> Now(port, client) == old(Now(port, client))
      ensures got != [] ==> Now(port, client) == Accounted(Filled(old(Now(port, client)), got), |got|)
      ensures port.greedy ==> |got| == old(hdr.length - bytesRead) || |got| == old(|port.rx|)
    {
      ghost var s := Now(port, client);
      got := client.ReadInto(port, client.Base() + bytesRead, hdr.length - bytesRead);
      assert Now(port, client) == Filled(s, got);
      if got != [] {
        Account(port, client, |got|);
      } else {
        assert Filled(s, got) == s;
      }
    }

    /** One turn of the loop: acquire the buffer, read, account. */
    method WiredTurn(port: Uart.Port, client: Client) returns (again: bool, got: seq<byte>)
      requires client.Valid() && Now(port, client).Reading()
      modifies this, port, client`fill, client.buf
      ensures Turned(old(Now(port, client)), Now(port, client), again, got)
    {
      var size := hdr.length - bytesRead;
      got := [];
      if !client.CanAcquire(size) {
        sent := sent + [Ack(hdr.typ, hdr.number, OUT_OF_BUFFERS, true)];
        state, bytesRead, partial := Type, 0, [];
        again := false;
        return;
      }
      got := TakePiece(port, client);
      again := got != [];
    }

    /** One turn, with the record of the loop's course kept up to date. */
    method KeepReading(port: Uart.Port, client: Client, ghost o: Snap, ghost mem: seq<byte>, ghost at: nat,
                       ghost before: seq<seq<byte>>, ghost course: Course)
      returns (again: bool, ghost course': Course)
      requires client.Valid() && Running(o, Now(port, client), true, mem, at, before, course)
      modifies this, port, client`fill, client.buf
      ensures client.Valid() && Running(o, Now(port, client), again, mem, at, before, course')
      ensures again ==> |port.rx| < old(|port.rx|)
      ensures !again ==> |port.rx| <= old(|port.rx|)
    {
      ghost var s := Now(port, client);
      var got;
      assert s.Reading();
      again, got := WiredTurn(port, client);
      TurnedTakes(s, Now(port, client), again, got);
      course' := KeptCourse(o, s, Now(port, client), again, got, mem, at, before, course);
    }

    /** The work handler's loop for a wired type. `mem`, `at` and `before` say how the
        frame in progress was begun and read so far, `course` what was read now. A
        frame for which the client has no room is refused and left in the FIFO. */
    method WiredLoop(port: Uart.Port, client: Client, ghost mem: seq<byte>, ghost at: nat, ghost before: seq<seq<byte>>)
      returns (ghost course: Course)
      requires Valid() && state == Data && client.Valid() && Now(port, client).Reading()
      requires Now(port, client).CanAcquire() ==> Trail(mem, at, before, Now(port, client))
      modifies this, port, client`fill, client.buf
      ensures Valid() && client.Valid()
      ensures Handled(old(Now(port, client)), Now(port, client), mem, at, before, course)
    {
      ghost var o := Now(port, client);
      course := FreshCourse();
      RunningStarts(o, mem, at, before);
      var again := true;
      while again
        invariant client.Valid() && Running(o, Now(port, client), again, mem, at, before, course)
        decreases |port.rx|, again
      {
        again, course := KeepReading(port, client, o, mem, at, before, course);
      }
      RunningEnds(o, Now(port, client), mem, at, before, course);
    }

    /** `handle_protocol_info`, with `serial_send_frame` inlined. */
    method HandleProtocolInfo()
      modifies this`sent, this`txNumber
      ensures sent == old(sent) + [InfoResponse(old(Value()))]
      ensures Value() == old(Value()).(tx := Next(old(txNumber)))
    {
      var low: byte, high: byte, next: byte := mask % 256, mask / 256, rxNumber;
      var payload := [PROTOCOL_VERSION, low, high, next];
      sent := sent + [Frame(Header(TYPE_PROTOCOL_INFO, false, true, NO_ERROR, 0, txNumber, 4), payload)];
      txNumber := if txNumber >= SEQUENCE_NUMBER_MAX then 0 else txNumber + 1;
    }

    /** The PROTOCOL_INFO branch of the loop: the payload is discarded 64 bytes at a
        time. A zero-byte read does not leave the loop, so the handler spins while the
        payload is not all there; `later` is what arrives meanwhile. */
    method InfoLoop(port: Uart.Port, later: seq<seq<byte>>) returns (stuck: bool)
      requires Valid() && state == Data && hdr.typ == TYPE_PROTOCOL_INFO && bytesRead < hdr.length
      modifies this, port
      ensures hdr.typ == old(hdr.typ)
      ensures stuck <==> old(|Uart.Pending(port, later)| < hdr.length - bytesRead)
      ensures stuck ==> bytesRead < hdr.length && port.rx == [] && Value() == old(Value()) && sent == old(sent)
      ensures !stuck ==>
                && Valid() && state == Type && bytesRead == 0
                && port.rx <= old(Uart.Pending(port, later)[hdr.length - bytesRead..])
                && (later == [] ==> port.rx == old(Uart.Pending(port, later)[hdr.length - bytesRead..]))
                && sent == old(sent) + [InfoResponse(old(Value()))]
                && Value() == old(Value()).(tx := Next(old(txNumber)))
    {
      var rest := Discard(port, later);
      stuck := bytesRead < hdr.length;
      if !stuck {
        HandleProtocolInfo();
        state, bytesRead, partial := Type, 0, [];
        hdr := hdr.(length := 0);
      }
    }

    /** The turns of that loop up to the last one, which answers: they discard the payload,
        as far as it arrives. */
    method Discard(port: Uart.Port, later: seq<seq<byte>>) returns (rest: seq<seq<byte>>)
      requires bytesRead < hdr.length
      modifies this`bytesRead, port
      ensures var all, need := old(Uart.Pending(port, later)), hdr.length - old(bytesRead);
              if |all| < need then bytesRead < hdr.length && port.rx == []
              else bytesRead == hdr.length && Uart.Pending(port, rest) == all[need..]
      ensures later == [] ==> rest == []
    {
      ghost var all := Uart.Pending(port, later);
      rest := later;
      ghost var read := 0;
      while bytesRead < hdr.length
        invariant bytesRead == old(bytesRead) + read <= hdr.length && read <= |all|
        invariant Uart.Pending(port, rest) == all[read..] && (later == [] ==> rest == [])
        decreases hdr.length - bytesRead
      {
        var size := hdr.length - bytesRead;
        var got;
        got, rest := Uart.ReadOrWait(port, if size < 64 then size else 64, rest);
        if got == [] {
          return;
        }
        assert Uart.Pending(port, rest) == all[read..][|got|..];
        bytesRead, read := bytesRead + |got|, read + |got|;
      }
    }

    /** The branch for a type without a client. Neither a finished frame nor a
        zero-byte read leaves the loop: the handler eats what is in the FIFO and what
        arrives later in pieces of the first frame's length, and answers each piece.
        When everything has been eaten the loop's guard still holds. */
    method UnwiredLoop(port: Uart.Port, later: seq<seq<byte>>) returns (answers: nat)
      requires Valid() && state == Data && bytesRead < hdr.length
      modifies this, port
      ensures port.rx == [] && Value() == old(Value()) && hdr == old(hdr) && bytesRead < hdr.length
      ensures answers == Pieces(old(bytesRead + |Uart.Pending(port, later)|), hdr.length)
      ensures sent == old(sent) + Repeat(Ack(hdr.typ, hdr.number, LENGTH_TOO_LONG, true), answers)
    {
      ghost var ack := Ack(hdr.typ, hdr.number, LENGTH_TOO_LONG, true);
      ghost var total := bytesRead + |Uart.Pending(port, later)|;
      answers := 0;
      var rest := later;
      while true
        invariant hdr == old(hdr) && bytesRead < hdr.length && Value() == old(Value())
        invariant answers + Pieces(bytesRead + |Uart.Pending(port, rest)|, hdr.length) == Pieces(total, hdr.length)
        invariant sent == old(sent) + Repeat(ack, answers)
        decreases |Uart.Pending(port, rest)|
      {
        var size := hdr.length - bytesRead;
        var got;
        got, rest := Uart.ReadOrWait(port, if size < 64 then size else 64, rest);
        if got == [] {
          break;
        }
        bytesRead := bytesRead + |got|;
        if bytesRead >= hdr.length {
          sent := sent + [Ack(hdr.typ, hdr.number, LENGTH_TOO_LONG, true)];
          state, bytesRead := Type, 0;
          answers := answers + 1;
        }
      }
    }

    /** `serial_work_handler`, run only while a frame is in its payload stage; `client`
        is what the multiplexer finds for the frame's type, and `later` what arrives
        while the handler does not return. It fails to return exactly for a data frame
        without a client and for a PROTOCOL_INFO frame whose payload never arrives:
        then the guard of its loop holds with nothing left to read. */
    method WorkHandler(port: Uart.Port, client: Client?, later: seq<seq<byte>>,
                       ghost mem: seq<byte>, ghost at: nat, ghost before: seq<seq<byte>>)
      returns (stuck: bool, ghost course: Course)
      requires Valid() && state == Data
      requires client != null ==> client.Valid()
      requires client != null && hdr.typ != TYPE_PROTOCOL_INFO <==> hdr.typ in wired && hdr.typ != TYPE_PROTOCOL_INFO
      requires client != null && hdr.typ != TYPE_PROTOCOL_INFO && Now(port, client).CanAcquire() ==>
                 Trail(mem, at, before, Now(port, client))
      modifies this, port, client, if client == null then {} else {client.buf}
      ensures hdr.typ == old(hdr.typ)
      ensures stuck <==> if old(hdr.typ) == TYPE_PROTOCOL_INFO
                         then old(|Uart.Pending(port, later)| < hdr.length - bytesRead) else client == null
      ensures stuck ==> bytesRead < hdr.length && port.rx == []
      ensures !stuck ==> Valid() && (client != null ==> client.Valid())
      ensures old(hdr.typ) == TYPE_PROTOCOL_INFO && !stuck ==>
                && state == Type
                && port.rx <= old(Uart.Pending(port, later)[hdr.length - bytesRead..])
                && (later == [] ==> port.rx == old(Uart.Pending(port, later)[hdr.length - bytesRead..]))
                && sent == old(sent) + React(old(Value()), Frame(old(hdr), [])).replies
                && Value() == React(old(Value()), Frame(old(hdr), [])).dev
      ensures client != null && old(hdr.typ) != TYPE_PROTOCOL_INFO ==>
                && old(Now(port, client)).Reading()
                && Handled(old(Now(port, client)), Now(port, client), mem, at, before, course)
      ensures client == null && old(hdr.typ) != TYPE_PROTOCOL_INFO ==>
                && Value() == old(Value())
                && sent == old(sent) + Repeat(Ack(old(hdr.typ), old(hdr.number), LENGTH_TOO_LONG, true),
                                              Pieces(old(bytesRead + |Uart.Pending(port, later)|), old(hdr.length)))
    {
      stuck, course := false, FreshCourse();
      if hdr.typ == TYPE_PROTOCOL_INFO {
        if hdr.length == 0 {
          HandleProtocolInfo();
          state, bytesRead, partial := Type, 0, [];
          assert port.rx <= port.rx + Flatten(later);
        } else {
          stuck := InfoLoop(port, later);
        }
      } else if client == null {
        var answers := UnwiredLoop(port, later);
        stuck := bytesRead < hdr.length;
      } else {
        course := WiredLoop(port, client, mem, at, before);
      }
    }
  }
}
