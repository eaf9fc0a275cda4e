/** Whole runs of the device's receive path: frames delivered one at a time, each
cut into any chunks, with the interrupt and the work item run after each chunk. */
module DeviceRun {
  import opened Wire
  import opened Protocol
  import opened Landing
  import opened PayloadLoop
  import opened DeviceReceiver
  import Uart

  /** A frame that the interrupt passes on to the work handler. */
  ghost predicate Passed(f: Frame) {
    WellFormed(f) && (f.hdr.length > 0 || f.hdr.typ == TYPE_PROTOCOL_INFO)
  }

  /** `all` is frame `f` on the wire. */
  ghost predicate OnWire(all: seq<byte>, f: Frame) {
    |all| == 4 + |f.payload| && all[4..] == f.payload && DecodeHeader(all[..4]) == f.hdr
  }

  lemma FrameOnWire(f: Frame)
    ensures OnWire(FrameBytes(f), f)
  {
    HeaderRoundTrip(f.hdr, EncodeHeader(f.hdr));
    assert FrameBytes(f)[..4] == EncodeHeader(f.hdr);
  }

  /** The interrupt stops exactly at the end of the frame's header. */
  lemma {:induction false} ScanFrame(f: Frame, all: seq<byte>, k: nat, m: nat)
    requires Passed(f) && OnWire(all, f) && k <= 4 && k <= m <= |all|
    ensures Scan(all[..k], all[k..m]) ==
            if m < 4 then Scanned(all[..m], [], [])
            else Scanned(all[..4], all[4..m], [])
    decreases m - k
  {
    var e := all;
    if k < 4 && k < m {
      var p, rx := e[..k], e[k..m];
      assert p + [rx[0]] == e[..k + 1] && rx[1..] == e[k + 1..m];
      ScanFrame(f, all, k + 1, m);
    }
  }

  /** The interrupt drops a length-0 frame that is no query. */
  lemma {:induction false} ScanAck(f: Frame, all: seq<byte>, k: nat, m: nat)
    requires OnWire(all, f) && f.hdr.length == 0 && f.hdr.typ != TYPE_PROTOCOL_INFO && f.payload == []
    requires k <= m <= 4 && k < 4
    ensures Scan(all[..k], all[k..m]) ==
            if m < 4 then Scanned(all[..m], [], []) else Scanned([], [], [])
    decreases m - k
  {
    var e := all;
    if k < m {
      var p, rx := e[..k], e[k..m];
      assert p + [rx[0]] == e[..k + 1] && rx[1..] == e[k + 1..m];
      if k + 1 < 4 {
        ScanAck(f, all, k + 1, m);
      } else {
        assert e[..4] == all[..4];
      }
    }
  }

  /** The interrupt on the bytes `k..m` of a frame whose first `k` have been taken. */
  lemma IrqOnFrame(f: Frame, all: seq<byte>, k: nat, m: nat)
    requires Passed(f) && OnWire(all, f) && k <= m <= |all|
    ensures var s := Scan(all[..if k < 4 then k else 4], all[k..m]);
            if m < 4 then s == Scanned(all[..m], [], [])
            else s == Scanned(all[..4], f.payload[if k < 4 then 0 else k - 4..m - 4], [])
  {
    if k < 4 {
      ScanFrame(f, all, k, m);
      if m >= 4 {
        PayloadSlice(all, f, 4, m);
      }
    } else {
      PayloadSlice(all, f, k, m);
      ScanFull(all[..4], all[k..m]);
    }
  }

  lemma PayloadSlice(all: seq<byte>, f: Frame, k: nat, m: nat)
    requires OnWire(all, f) && 4 <= k <= m <= |all|
    ensures all[k..m] == f.payload[k - 4..m - 4]
  {
    var rest := all[4..];
    var a, b := rest[k - 4..m - 4], all[k..m];
    forall i | 0 <= i < m - k ensures a[i] == b[i] {
      assert a[i] == rest[k - 4 + i] && b[i] == all[k + i];
    }
    assert a == b;
  }

  lemma ScanFull(partial: seq<byte>, rx: seq<byte>)
    requires |partial| >= 4
    ensures Scan(partial, rx) == Scanned(partial, rx, [])
  {
  }

  // ---------------------------------------------------------------- data frames

  /** A data frame for which the client has room. */
  ghost predicate Suits(f: Frame, client: Client, wired: set<nibble>)
    reads client
  {
    && Passed(f) && IsData(f) && f.hdr.typ in wired
    && client.Valid() && client.Base() + f.hdr.length <= client.capacity
  }

  /** How the frame in progress was begun, and what has been read of its payload. */
  datatype Record = Record(mem: seq<byte>, at: nat, parts: seq<seq<byte>>)

  /** The header is complete, `b` payload bytes are in the buffer, and the payload
      up to `e` is waiting. */
  ghost predicate Arrived(s: Snap, f: Frame, all: seq<byte>, b: nat, e: nat, r: Record)
    requires |all| >= 4
  {
    && b <= e <= |f.payload| == f.hdr.length && b < f.hdr.length
    && s.state == Data && s.hdr == f.hdr && s.partial == all[..4]
    && Trail(r.mem, r.at, r.parts, s) && Flatten(r.parts) == f.payload[..b] && s.rx == f.payload[b..e]
  }

  /** The first `k` bytes of `f` have been taken in and nothing else is waiting. */
  ghost predicate Took(s: Snap, f: Frame, all: seq<byte>, k: nat, r: Record)
    requires |all| >= 4 && k <= |all|
  {
    if k < 4 then
      && s.rx == [] && s.partial == all[..k] && s.state != Data
      && r == Record(s.mem, s.Base(), [])
    else k < |all| && Arrived(s, f, all, k - 4, k - 4, r)
  }

  /** What the client's buffer holds when the payload has been read. */
  ghost function Held(r: Record, advancing: bool): seq<byte> {
    Land(r.mem, r.at, if advancing then 2 else 1, r.parts)
  }

  /** Where the last part was found to begin, as the client counts. */
  ghost function LastStart(r: Record): nat
    requires r.parts != []
  {
    r.at + Start(r.parts, |r.parts| - 1)
  }

  /** The OUT_OF_BUFFERS acknowledgement that follows a refused frame some part of which
      was written outside the client's buffer. */
  ghost function Overrun(f: Frame, r: Record, capacity: nat): seq<Frame>
    requires r.parts != []
  {
    if LastStart(r) + f.hdr.length > capacity then [Ack(f.hdr.typ, f.hdr.number, OUT_OF_BUFFERS, true)] else []
  }

  /** Frame `f` has been read as `r` and judged by device `d`, which had sent `sent`, on
      what has landed at the start of the client's buffer; `s` is the state after. */
  ghost predicate Concluded(d: Device, sent: seq<Frame>, s: Snap, f: Frame, r: Record) {
    && Flatten(r.parts) == f.payload && NonEmpty(r.parts) && r.parts != []
    && var held := Held(r, s.advancing);
       && |held| == |r.mem| == |s.mem| && |held| >= |f.payload| && |s.mem| >= s.capacity
       && s.state == Type && s.rx == []
       && var v := React(d, Frame(f.hdr, held[..|f.payload|]));
          && s.dev == v.dev
          && (!s.advancing ==> s.sent == sent + v.replies && s.mem[s.capacity..] == r.mem[s.capacity..])
          && (s.advancing ==> s.mem == held)
          && (s.advancing && d.rx == f.hdr.number ==> s.fill == 0 && s.sent == sent + v.replies)
          && (s.advancing && d.rx != f.hdr.number ==>
                s.fill == LastStart(r) && s.sent == sent + v.replies + Overrun(f, r, s.capacity))
  }

  lemma PayloadGrows(f: Frame, b: nat, e: nat, before: seq<seq<byte>>, more: seq<seq<byte>>)
    requires b <= e <= |f.payload| && Flatten(before) == f.payload[..b] && Flatten(more) == f.payload[b..e]
    ensures Flatten(before + more) == f.payload[..e]
  {
    FlattenAppend(before, more);
    PrefixGrows(f.payload, b, e);
  }

  lemma PrefixGrows(s: seq<byte>, b: nat, e: nat)
    requires b <= e <= |s|
    ensures s[..b] + s[b..e] == s[..e]
  {
  }

  /** What the work handler makes of the waiting part of a payload. */
  lemma WorkTakes(o: Snap, s: Snap, f: Frame, all: seq<byte>, b: nat, e: nat, r: Record, c: Course)
    requires WellFormed(f) && OnWire(all, f) && Arrived(o, f, all, b, e, r) && Handled(o, s, r.mem, r.at, r.parts, c)
    ensures e < |f.payload| ==>
              Took(s, f, all, 4 + e, r.(parts := r.parts + c.more)) && s.dev == o.dev && s.sent == o.sent
    ensures e == |f.payload| ==> Concluded(o.dev, o.sent, s, f, r.(parts := r.parts + c.more))
    ensures o.greedy && e == |f.payload| ==> |c.more| == 1
  {
    if e < |f.payload| {
      WorkTakesSome(o, s, f, all, b, e, r, c);
    } else {
      WorkTakesAll(o, s, f, all, b, r, c);
    }
  }

  lemma WorkTakesSome(o: Snap, s: Snap, f: Frame, all: seq<byte>, b: nat, e: nat, r: Record, c: Course)
    requires WellFormed(f) && OnWire(all, f) && Arrived(o, f, all, b, e, r) && Handled(o, s, r.mem, r.at, r.parts, c)
    requires e < |f.payload|
    ensures Took(s, f, all, 4 + e, r.(parts := r.parts + c.more)) && s.dev == o.dev && s.sent == o.sent
  {
    assert |o.rx| == e - b && o.bytesRead == b;
    assert Flatten(c.more) == o.rx;
    PayloadGrows(f, b, e, r.parts, c.more);
    assert f.payload[e..e] == [];
  }

  lemma WorkTakesAll(o: Snap, s: Snap, f: Frame, all: seq<byte>, b: nat, r: Record, c: Course)
    requires WellFormed(f) && OnWire(all, f) && Arrived(o, f, all, b, |f.payload|, r)
    requires Handled(o, s, r.mem, r.at, r.parts, c)
    ensures Concluded(o.dev, o.sent, s, f, r.(parts := r.parts + c.more))
    ensures o.greedy ==> |c.more| == 1
  {
    var e := |f.payload|;
    assert |o.rx| == e - b && o.bytesRead == b;
    assert o.rx[..o.Need()] == o.rx;
    PayloadGrows(f, b, e, r.parts, c.more);
    assert f.payload[..e] == f.payload;
    WorkConcludes(o, s, f, r, c);
  }

  /** The state when the frame is complete and nothing follows. */
  ghost predicate Complete(o: Snap, f: Frame, r: Record, parts: seq<seq<byte>>, done: Snap) {
    && WellFormed(f) && o.Reading() && o.hdr == f.hdr && |r.mem| == |o.mem| && r.at + f.hdr.length <= o.capacity
    && NonEmpty(parts) && parts != [] && Flatten(parts) == f.payload
    && done == Completed(o, r.mem, r.at, parts, [])
  }

  lemma ConcludesAdvancing(o: Snap, s: Snap, f: Frame, r: Record, parts: seq<seq<byte>>, done: Snap)
    requires Complete(o, f, r, parts, done) && o.advancing
    requires s == if done.CanAcquire() then done else OutOfBuffers(done)
    ensures Concluded(o.dev, o.sent, s, f, r.(parts := parts))
  {
    InsideIff(o, r.mem, r.at, parts);
    var held := Held(r.(parts := parts), true);
    assert done.mem == held && |held| >= f.hdr.length == |f.payload|;
    assert done.dev == React(o.dev, Frame(f.hdr, held[..|f.payload|])).dev;
    assert done.sent + [] == done.sent;
  }

  lemma ConcludesFixed(o: Snap, s: Snap, f: Frame, r: Record, parts: seq<seq<byte>>, done: Snap)
    requires Complete(o, f, r, parts, done) && !o.advancing && r.at == 0
    requires Devoured(done, s, []) && s.rx == []
    ensures Concluded(o.dev, o.sent, s, f, r.(parts := parts))
  {
    FixedLands(r.mem, parts);
    assert CutUp(done.hdr, []) == Cutting([], []);
    assert done.sent + [] == done.sent;
  }

  lemma WorkConcludes(o: Snap, s: Snap, f: Frame, r: Record, c: Course)
    requires WellFormed(f) && o.hdr == f.hdr && f.hdr.length > 0 && Trail(r.mem, r.at, r.parts, o)
    requires |o.rx| == o.Need() && Looped(o, s, r.mem, r.at, r.parts, c)
    requires Flatten(r.parts + c.more) == f.payload
    ensures Concluded(o.dev, o.sent, s, f, r.(parts := r.parts + c.more))
  {
    var parts := r.parts + c.more;
    assert o.rx[o.Need()..] == [];
    var done := Completed(o, r.mem, r.at, parts, []);
    if o.advancing {
      LappedNothing(done, s, c.laps, c.part);
      ConcludesAdvancing(o, s, f, r, parts, done);
    } else {
      ConcludesFixed(o, s, f, r, parts, done);
    }
  }

  /** A header that has just been completed. */
  lemma HeaderArrived(o: Snap, s: Snap, f: Frame, all: seq<byte>, m: nat, r: Record)
    requires Passed(f) && OnWire(all, f) && 4 <= m <= |all| && r == Record(o.mem, o.Base(), [])
    requires IsData(f) && f.hdr.typ in o.dev.wired && !o.dev.stuck && |o.mem| == o.capacity + MAX_PAYLOAD_LEN
    requires r.at + f.hdr.length <= o.capacity
    requires s == o.(partial := all[..4], rx := f.payload[0..m - 4], state := Data, hdr := f.hdr, bytesRead := 0)
    ensures Arrived(s, f, all, 0, m - 4, r)
  {
    assert f.payload[..0] == [];
    TrailStarts(s);
  }

  /** More of the payload has arrived. */
  lemma PayloadArrived(o: Snap, s: Snap, f: Frame, all: seq<byte>, k: nat, m: nat, r: Record)
    requires OnWire(all, f) && 4 <= k <= m <= |all| && Arrived(o, f, all, k - 4, k - 4, r)
    requires s == o.(partial := all[..4], rx := f.payload[k - 4..m - 4])
    ensures Arrived(s, f, all, k - 4, m - 4, r)
  {
  }

  /** What the interrupt makes of the next bytes of the frame, `o` before and `s` after. */
  lemma IrqTakes(o: Snap, s: Snap, f: Frame, all: seq<byte>, k: nat, m: nat, r: Record)
    requires Passed(f) && OnWire(all, f) && k <= m <= |all| && k < |all| && Took(o, f, all, k, r)
    requires IsData(f) && f.hdr.typ in o.dev.wired && !o.dev.stuck && |o.mem| == o.capacity + MAX_PAYLOAD_LEN
    requires r.at + f.hdr.length <= o.capacity
    requires var scan := Scan(o.partial, o.rx + all[k..m]);
             s == o.(partial := scan.partial, rx := scan.rx, state := s.state, hdr := s.hdr, bytesRead := s.bytesRead)
    requires HeaderHolds(s.state, s.hdr, s.partial)
    requires if o.state == Data then s.state == Data && s.hdr == o.hdr && s.bytesRead == o.bytesRead
             else s.state == Data ==> s.bytesRead == 0
    ensures m < 4 ==> Took(s, f, all, m, r)
    ensures m >= 4 ==> Arrived(s, f, all, if k < 4 then 0 else k - 4, m - 4, r)
  {
    IrqOnFrame(f, all, k, m);
    assert o.rx == [] by {
      assert k >= 4 ==> f.payload[k - 4..k - 4] == [];
    }
    assert o.rx + all[k..m] == all[k..m];
    if k >= 4 {
      PayloadArrived(o, s, f, all, k, m, r);
    } else if m >= 4 {
      HeaderArrived(o, s, f, all, m, r);
    }
  }

  lemma IrqSilent(o: Snap, f: Frame, all: seq<byte>, k: nat, m: nat, r: Record)
    requires Passed(f) && OnWire(all, f) && k <= m <= |all| && k < |all| && Took(o, f, all, k, r)
    ensures Scan(o.partial, o.rx + all[k..m]).acks == []
  {
    IrqOnFrame(f, all, k, m);
    assert o.rx == [] && [] + all[k..m] == all[k..m];
  }

  /** Delivers bytes and runs the interrupt, when nothing is to be refused. */
  method RunIrq(dev: SerialDevice, port: Uart.Port, chunk: seq<byte>)
    requires dev.Valid() && Scan(dev.partial, port.rx + chunk).acks == []
    modifies dev`state, dev`hdr, dev`bytesRead, dev`sent, dev`partial, port
    ensures dev.Valid() && dev.sent == old(dev.sent)
    ensures dev.partial == Scan(old(dev.partial), old(port.rx) + chunk).partial
    ensures port.rx == Scan(old(dev.partial), old(port.rx) + chunk).rx
    ensures if old(dev.state) == Data
            then dev.state == Data && dev.hdr == old(dev.hdr) && dev.bytesRead == old(dev.bytesRead)
            else dev.state == Data ==> dev.bytesRead == 0
  {
    port.Deliver(chunk);
    dev.UartIrq(port);
    assert old(dev.sent) + [] == old(dev.sent);
  }

  /** The same, seen as a step from one snapshot to the next. */
  method StepIrq(dev: SerialDevice, port: Uart.Port, ghost client: Client, chunk: seq<byte>)
    requires dev.Valid() && Scan(dev.partial, port.rx + chunk).acks == []
    modifies dev`state, dev`hdr, dev`bytesRead, dev`sent, dev`partial, port
    ensures dev.Valid()
    ensures var o, s := old(dev.Now(port, client)), dev.Now(port, client);
            var scan := Scan(o.partial, o.rx + chunk);
            && s == o.(partial := scan.partial, rx := scan.rx, state := s.state, hdr := s.hdr, bytesRead := s.bytesRead)
            && HeaderHolds(s.state, s.hdr, s.partial)
            && if o.state == Data then s.state == Data && s.hdr == o.hdr && s.bytesRead == o.bytesRead
               else s.state == Data ==> s.bytesRead == 0
  {
    RunIrq(dev, port, chunk);
  }

  /** Delivers one chunk and runs the interrupt. */
  method Interrupt(dev: SerialDevice, port: Uart.Port, client: Client, chunk: seq<byte>,
                   ghost f: Frame, ghost all: seq<byte>, ghost k: nat, ghost r: Record)
    requires dev.Valid() && Passed(f) && OnWire(all, f) && IsData(f) && f.hdr.typ in dev.wired && client.Valid()
    requires k < |all| && Took(dev.Now(port, client), f, all, k, r) && r.at + f.hdr.length <= client.capacity
    requires k + |chunk| <= |all| && chunk == all[k..k + |chunk|]
    modifies dev, port
    ensures dev.Valid() && dev.Value() == old(dev.Value()) && dev.sent == old(dev.sent)
    ensures k + |chunk| < 4 ==> Took(dev.Now(port, client), f, all, k + |chunk|, r)
    ensures k + |chunk| >= 4 ==>
              Arrived(dev.Now(port, client), f, all, if k < 4 then 0 else k - 4, k + |chunk| - 4, r)
  {
    ghost var o := dev.Now(port, client);
    IrqSilent(o, f, all, k, k + |chunk|, r);
    StepIrq(dev, port, client, chunk);
    IrqTakes(o, dev.Now(port, client), f, all, k, k + |chunk|, r);
  }

  /** Runs the work item on the waiting part of a payload. */
  method Work(dev: SerialDevice, port: Uart.Port, client: Client, ghost f: Frame, ghost all: seq<byte>,
              ghost b: nat, ghost e: nat, ghost r: Record)
    returns (ghost r': Record)
    requires dev.Valid() && WellFormed(f) && OnWire(all, f) && IsData(f) && f.hdr.typ in dev.wired && client.Valid()
    requires Arrived(dev.Now(port, client), f, all, b, e, r)
    modifies dev, port, client, client.buf
    ensures dev.Valid() && client.Valid() && r'.mem == r.mem && r'.at == r.at
    ensures e < |f.payload| ==>
              && Took(dev.Now(port, client), f, all, 4 + e, r')
              && dev.Value() == old(dev.Value()) && dev.sent == old(dev.sent)
              && (e == 0 ==> r'.parts == [])
    ensures e == |f.payload| ==>
              && Concluded(old(dev.Value()), old(dev.sent), dev.Now(port, client), f, r')
              && (port.greedy ==> |r'.parts| == |r.parts| + 1)
  {
    ghost var o := dev.Now(port, client);
    var stuck;
    ghost var course;
    stuck, course := dev.WorkHandler(port, client, [], r.mem, r.at, r.parts);
    WorkTakes(o, dev.Now(port, client), f, all, b, e, r, course);
    r' := r.(parts := r.parts + course.more);
    if e == 0 && e < |f.payload| {
      NothingRead(r'.parts);
    }
  }

  /** Delivers one chunk, runs the interrupt, and the work item if it was queued. */
  method TakeChunk(dev: SerialDevice, port: Uart.Port, client: Client, chunk: seq<byte>,
                   ghost f: Frame, ghost all: seq<byte>, ghost k: nat, ghost r: Record)
    returns (ghost r': Record)
    requires dev.Valid() && Passed(f) && OnWire(all, f) && IsData(f) && f.hdr.typ in dev.wired && client.Valid()
    requires k < |all| && Took(dev.Now(port, client), f, all, k, r) && r.at + f.hdr.length <= client.capacity
    requires k + |chunk| <= |all| && chunk == all[k..k + |chunk|]
    requires k <= 4 ==> r.parts == []
    modifies dev, port, client, client.buf
    ensures dev.Valid() && client.Valid() && r'.mem == r.mem && r'.at == r.at
    ensures k + |chunk| < |all| ==>
              && Took(dev.Now(port, client), f, all, k + |chunk|, r')
              && dev.Value() == old(dev.Value()) && dev.sent == old(dev.sent)
              && (k + |chunk| <= 4 ==> r'.parts == [])
    ensures k + |chunk| == |all| ==>
              && Concluded(old(dev.Value()), old(dev.sent), dev.Now(port, client), f, r')
              && (port.greedy && k <= 4 ==> |r'.parts| == 1)
  {
    Interrupt(dev, port, client, chunk, f, all, k, r);
    r' := r;
    if dev.state == Data {
      r' := Work(dev, port, client, f, all, if k < 4 then 0 else k - 4, k + |chunk| - 4, r);
    }
  }

  /** Every split of one frame, whatever the client and however much each read returns:
      the device judges the frame on what has landed in the client's buffer from `parts`,
      the pieces in which the payload was read. When these are delivered at once and read
      at once there is only one. */
  method ReceiveData(dev: SerialDevice, port: Uart.Port, client: Client, chunks: seq<seq<byte>>, f: Frame)
    returns (ghost r: Record)
    requires dev.Valid() && dev.state == Type && port.rx == []
    requires Suits(f, client, dev.wired)
    requires Flatten(chunks) == FrameBytes(f)
    modifies dev, port, client, client.buf
    ensures dev.Valid() && client.Valid() && r.mem == old(client.buf[..]) && r.at == old(client.Base())
    ensures Concluded(old(dev.Value()), old(dev.sent), dev.Now(port, client), f, r)
    ensures port.greedy && AtOnce(chunks) ==> |r.parts| == 1
  {
    var all, k := FrameBytes(f), 0;
    FrameOnWire(f);
    r := Record(client.buf[..], client.Base(), []);
    ghost var d, sent, whole := dev.Value(), dev.sent, port.greedy && AtOnce(chunks);
    assert all[..0] == [] && chunks[..0] == [];
    for n := 0 to |chunks|
      invariant dev.Valid() && client.Valid() && r.mem == old(client.buf[..]) && r.at == old(client.Base())
      invariant k == |Flatten(chunks[..n])| <= |all|
      invariant Receiving(d, sent, dev.Now(port, client), f, all, k, r, whole)
    {
      ChunkOf(chunks, all, n);
      r := NextChunk(dev, port, client, chunks[n], f, all, k, r, d, sent, whole);
      k := k + |chunks[n]|;
    }
    assert chunks[..|chunks|] == chunks;
  }

  /** The first `k` bytes of frame `f` have arrived at a device that was `d` and had sent
      `sent`; `whole` says that the payload comes in one piece. */
  ghost predicate Receiving(d: Device, sent: seq<Frame>, s: Snap, f: Frame, all: seq<byte>, k: nat, r: Record,
                            whole: bool)
    requires 4 <= |all| && k <= |all|
  {
    if k < |all| then Took(s, f, all, k, r) && (k <= 4 ==> r.parts == []) && s.dev == d && s.sent == sent
    else Concluded(d, sent, s, f, r) && (whole ==> |r.parts| == 1)
  }

  /** The next chunk of the frame; none comes after its end. */
  method NextChunk(dev: SerialDevice, port: Uart.Port, client: Client, chunk: seq<byte>, ghost f: Frame,
                   all: seq<byte>, k: nat, ghost r: Record, ghost d: Device, ghost sent: seq<Frame>, ghost whole: bool)
    returns (ghost r': Record)
    requires dev.Valid() && Passed(f) && OnWire(all, f) && IsData(f) && f.hdr.typ in dev.wired && client.Valid()
    requires k + |chunk| <= |all| && chunk == all[k..k + |chunk|] && r.at + f.hdr.length <= client.capacity
    requires Receiving(d, sent, dev.Now(port, client), f, all, k, r, whole)
    requires whole ==> port.greedy && (k <= 4 || k == |all|)
    modifies dev, port, client, client.buf
    ensures dev.Valid() && client.Valid() && r'.mem == r.mem && r'.at == r.at
    ensures Receiving(d, sent, dev.Now(port, client), f, all, k + |chunk|, r', whole)
  {
    r' := r;
    if k < |all| {
      r' := TakeChunk(dev, port, client, chunk, f, all, k, r);
    }
  }

  /** No chunk ends inside the payload. */
  ghost predicate AtOnce(chunks: seq<seq<byte>>) {
    forall n :: 0 <= n <= |chunks| ==>
      |Flatten(chunks[..n])| <= 4 || |Flatten(chunks[..n])| == |Flatten(chunks)|
  }

  lemma ChunkOf(chunks: seq<seq<byte>>, all: seq<byte>, n: nat)
    requires n < |chunks| && Flatten(chunks) == all
    ensures var k := |Flatten(chunks[..n])|;
            && |Flatten(chunks[..n + 1])| == k + |chunks[n]| <= |all|
            && all[k..k + |chunks[n]|] == chunks[n]
  {
    FlattenPart(chunks, n);
    FlattenPrefix(chunks, n + 1);
    var a, b := Flatten(chunks[..n]), Flatten(chunks[n + 1..]);
    assert all == (a + chunks[n]) + b;
  }

  // ---------------------------------------------------------------- frames that arrive intact

  /** The client hands out a fixed address, or starts at the beginning of its buffer and
      gets the payload in one read. */
  ghost predicate Straight(r: Record, advancing: bool) {
    r.at == 0 && (advancing ==> |r.parts| == 1)
  }

  lemma HeldIntact(f: Frame, r: Record, advancing: bool, capacity: nat)
    requires Straight(r, advancing) && Flatten(r.parts) == f.payload && |f.payload| <= capacity <= |r.mem|
    ensures var held := Held(r, advancing);
            |held| == |r.mem| && held[..|f.payload|] == f.payload && held[capacity..] == r.mem[capacity..]
  {
    if advancing {
      assert r.parts == [r.parts[0]];
      OneReadLands(r.mem, r.parts[0]);
    } else {
      FixedLands(r.mem, r.parts);
    }
  }

  /** Then the frame is judged as sent, nothing outside the client's buffer changes, and
      an advancing client is back at the beginning. */
  lemma ConcludedIntact(d: Device, sent: seq<Frame>, s: Snap, f: Frame, r: Record)
    requires Concluded(d, sent, s, f, r) && Straight(r, s.advancing) && WellFormed(f) && f.hdr.length <= s.capacity
    ensures s.dev == React(d, f).dev && s.sent == sent + React(d, f).replies
    ensures |s.mem| == |r.mem| && s.mem[s.capacity..] == r.mem[s.capacity..]
    ensures s.advancing ==> s.fill == 0 && s.mem[..|f.payload|] == f.payload
  {
    HeldIntact(f, r, s.advancing, s.capacity);
    assert Frame(f.hdr, f.payload) == f;
    if s.advancing {
      assert Start(r.parts, 0) == 0;
      var v := React(d, f);
      assert sent + v.replies + [] == sent + v.replies;
    }
  }

  /** The frame will be read straight: any split for a client with a fixed address, and
      for an advancing one a payload delivered and read at once. */
  ghost predicate Clean(f: Frame, chunks: seq<seq<byte>>, client: Client, greedy: bool)
    reads client
  {
    && client.Base() == 0 && f.hdr.length <= client.capacity
    && (client.advancing ==> greedy && AtOnce(chunks))
  }

  /** A data frame that is read straight: the device reacts to it exactly as `React` says,
      and nothing outside the client's buffer is written. */
  method ReceiveFrame(dev: SerialDevice, port: Uart.Port, client: Client, chunks: seq<seq<byte>>, f: Frame)
    requires dev.Valid() && dev.state == Type && port.rx == []
    requires Suits(f, client, dev.wired) && Clean(f, chunks, client, port.greedy)
    requires Flatten(chunks) == FrameBytes(f)
    modifies dev, port, client, client.buf
    ensures dev.Valid() && dev.state == Type && port.rx == [] && client.Valid() && client.Base() == 0
    ensures client.buf[client.capacity..] == old(client.buf[client.capacity..])
    ensures client.advancing ==> client.buf[..f.hdr.length] == f.payload
    ensures var r := React(old(dev.Value()), f);
            dev.Value() == r.dev && dev.sent == old(dev.sent) + r.replies
  {
    ghost var r := ReceiveData(dev, port, client, chunks, f);
    ConcludedIntact(old(dev.Value()), old(dev.sent), dev.Now(port, client), f, r);
    assert client.buf[client.capacity..] == client.buf[..][client.capacity..];
    assert client.buf[..f.hdr.length] == client.buf[..][..f.hdr.length];
  }

  /** An accepted frame that an advancing client has not read straight: the message it is
      told about holds a byte left over from before, and some write went outside its
      buffer if and only if where the last part began, plus the length, does. */
  lemma SplitFrameCorrupted(d: Device, sent: seq<Frame>, s: Snap, f: Frame, r: Record)
    requires Concluded(d, sent, s, f, r) && s.advancing && !Straight(r, true) && WellFormed(f) && IsData(f)
    requires !d.stuck && f.hdr.typ in d.wired && f.hdr.number == d.rx
    requires |r.mem| == s.capacity + MAX_PAYLOAD_LEN && r.at + f.hdr.length <= s.capacity
    ensures var i := if r.at > 0 then 0 else |r.parts[0]|;
            && i < f.hdr.length && |s.dev.accepted| == |d.accepted| + 1
            && |s.dev.accepted[|d.accepted|].payload| == f.hdr.length
            && s.dev.accepted[|d.accepted|].payload[i] == r.mem[i]
    ensures Within(r.at, 2, r.parts, s.capacity) <==> LastStart(r) + f.hdr.length <= s.capacity
  {
    StaleByte(f, r, s.capacity);
    assert s.dev.accepted == d.accepted + [Frame(f.hdr, s.mem[..|f.payload|])];
  }

  lemma StaleByte(f: Frame, r: Record, capacity: nat)
    requires Flatten(r.parts) == f.payload && NonEmpty(r.parts) && r.parts != [] && !Straight(r, true) && WellFormed(f)
    requires |r.mem| == capacity + MAX_PAYLOAD_LEN && r.at + f.hdr.length <= capacity
    ensures var i := if r.at > 0 then 0 else |r.parts[0]|;
            i < f.hdr.length && |Held(r, true)| == |r.mem| && Held(r, true)[i] == r.mem[i]
    ensures Within(r.at, 2, r.parts, capacity) <==> LastStart(r) + f.hdr.length <= capacity
  {
    LastWrite(r.parts);
    StartGrows(r.parts, |r.parts| - 1, |r.parts|);
    WithinIffLast(r.at, 2, r.parts, capacity);
    WithinIffLast(r.at, 2, r.parts, |r.mem|);
    LandedElsewhere(r.mem, r.at, 2, r.parts);
    var i := StaleIndex(r.at, r.parts, |r.mem|);
  }

  // ---------------------------------------------------------------- other frames

  /** The first `k` bytes of a frame have been taken, none of them payload. */
  ghost predicate InHeader(dev: SerialDevice, port: Uart.Port, all: seq<byte>, k: nat)
    reads dev, port
    requires k <= |all|
  {
    k < 4 && dev.Valid() && dev.state != Data && dev.partial == all[..k] && port.rx == []
  }

  lemma OtherScan(f: Frame, all: seq<byte>, k: nat, m: nat)
    requires WellFormed(f) && !IsData(f) && OnWire(all, f) && k < 4 && k <= m <= |all|
    ensures Scan(all[..k], [] + all[k..m]) ==
            if m < 4 then Scanned(all[..m], [], [])
            else if f.hdr.typ == TYPE_PROTOCOL_INFO then Scanned(all[..4], f.payload[..m - 4], [])
            else Scanned([], [], [])
  {
    assert [] + all[k..m] == all[k..m];
    if f.hdr.typ == TYPE_PROTOCOL_INFO {
      ScanFrame(f, all, k, m);
      if m >= 4 {
        PayloadSlice(all, f, 4, m);
        assert f.payload[0..m - 4] == f.payload[..m - 4];
      }
    } else {
      ScanAck(f, all, k, m);
    }
  }

  /** Delivers one chunk of a frame other than a data frame and runs the interrupt. */
  method OtherChunk(dev: SerialDevice, port: Uart.Port, chunk: seq<byte>,
                    ghost f: Frame, ghost all: seq<byte>, ghost k: nat)
    requires WellFormed(f) && !IsData(f) && OnWire(all, f) && k <= |all| && InHeader(dev, port, all, k)
    requires k + |chunk| <= |all| && chunk == all[k..k + |chunk|]
    modifies dev, port
    ensures dev.Valid() && dev.Value() == old(dev.Value()) && dev.sent == old(dev.sent)
    ensures k + |chunk| < 4 ==> InHeader(dev, port, all, k + |chunk|)
    ensures k + |chunk| >= 4 && f.hdr.typ != TYPE_PROTOCOL_INFO ==> dev.state == Type && port.rx == []
    ensures k + |chunk| >= 4 && f.hdr.typ == TYPE_PROTOCOL_INFO ==>
              dev.state == Data && dev.hdr == f.hdr && dev.bytesRead == 0 && port.rx == f.payload[..k + |chunk| - 4]
  {
    OtherScan(f, all, k, k + |chunk|);
    RunIrq(dev, port, chunk);
  }

  /** A query whose header is complete: the handler waits for the rest of the payload. */
  method Answer(dev: SerialDevice, port: Uart.Port, later: seq<seq<byte>>, f: Frame)
    requires dev.Valid() && dev.state == Data && dev.hdr == f.hdr && dev.bytesRead == 0
    requires WellFormed(f) && f.hdr.typ == TYPE_PROTOCOL_INFO && port.rx + Flatten(later) == f.payload
    modifies dev, port
    ensures dev.Valid() && dev.state == Type && port.rx == []
    ensures var r := React(old(dev.Value()), f);
            dev.Value() == r.dev && dev.sent == old(dev.sent) + r.replies
  {
    ghost var all := Uart.Pending(port, later);
    assert all[f.hdr.length..] == [];
    var stuck;
    ghost var course;
    stuck, course := dev.WorkHandler(port, null, later, [], 0, []);
  }

  /** A PROTOCOL_INFO frame or a host acknowledgement, however it is split: the device
      reacts as `React` says. */
  method ReceiveOther(dev: SerialDevice, port: Uart.Port, chunks: seq<seq<byte>>, f: Frame)
    requires dev.Valid() && dev.state == Type && port.rx == []
    requires WellFormed(f) && !IsData(f) && Flatten(chunks) == FrameBytes(f)
    modifies dev, port
    ensures dev.Valid() && dev.state == Type && port.rx == []
    ensures var r := React(old(dev.Value()), f);
            dev.Value() == r.dev && dev.sent == old(dev.sent) + r.replies
  {
    var all, k := FrameBytes(f), 0;
    FrameOnWire(f);
    assert all[..0] == [] && chunks[..0] == [];
    for n := 0 to |chunks|
      invariant k == |Flatten(chunks[..n])| <= |all|
      invariant dev.Valid() && dev.Value() == old(dev.Value()) && dev.sent == old(dev.sent)
      invariant k < 4 ==> InHeader(dev, port, all, k)
      invariant k >= 4 ==> dev.state == Type && port.rx == [] && f.hdr.typ != TYPE_PROTOCOL_INFO
    {
      ChunkOf(chunks, all, n);
      if k < 4 {
        OtherChunk(dev, port, chunks[n], f, all, k);
      }
      k := k + |chunks[n]|;
      if dev.state == Data {
        RestOf(chunks, all, f, n + 1, k);
        Answer(dev, port, chunks[n + 1..], f);
        return;
      }
    }
    assert chunks[..|chunks|] == chunks;
    assert old(dev.sent) + [] == old(dev.sent);
  }

  lemma RestOf(chunks: seq<seq<byte>>, all: seq<byte>, f: Frame, n: nat, k: nat)
    requires n <= |chunks| && Flatten(chunks) == all && OnWire(all, f) && k == |Flatten(chunks[..n])| >= 4
    ensures k <= |all| && f.payload[..k - 4] + Flatten(chunks[n..]) == f.payload
  {
    FlattenPrefix(chunks, n);
    var a, b := Flatten(chunks[..n]), Flatten(chunks[n..]);
    assert all == a + b;
    assert f.payload[..k - 4] == all[4..k] && f.payload[k - 4..] == all[k..] && all[k..] == b;
  }

  // ---------------------------------------------------------------- whole streams

  /** One frame of a run, in chunks. */
  datatype Arrival = Arrival(frame: Frame, chunks: seq<seq<byte>>)

  function Sequence(arrivals: seq<Arrival>): (fs: seq<Frame>)
    ensures |fs| == |arrivals|
    ensures forall k :: 0 <= k < |arrivals| ==> fs[k] == arrivals[k].frame
  {
    seq(|arrivals|, k requires 0 <= k < |arrivals| => arrivals[k].frame)
  }

  ghost predicate Receivable(a: Arrival, clients: map<nibble, Client>, greedy: bool) {
    && WellFormed(a.frame) && Flatten(a.chunks) == FrameBytes(a.frame)
    && (IsData(a.frame) ==>
          && a.frame.hdr.typ in clients
          && var c := clients[a.frame.hdr.typ];
             a.frame.hdr.length <= c.capacity && (c.advancing ==> greedy && AtOnce(a.chunks)))
  }

  /** Every client is at the beginning of its own buffer. */
  ghost predicate Ready(clients: map<nibble, Client>)
    reads clients.Values
  {
    && (forall t :: t in clients ==> clients[t].Valid() && clients[t].Base() == 0)
    && (forall t, u :: t in clients && u in clients && clients[t] != clients[u] ==> clients[t].buf != clients[u].buf)
  }

  lemma NextPrefix(fs: seq<Frame>, n: nat)
    requires n < |fs|
    ensures fs[..n + 1] == fs[..n] + [fs[n]]
  {
  }

  /** What the clients' memory holds past their buffers. */
  ghost function Past(clients: map<nibble, Client>): map<nibble, seq<byte>>
    reads clients.Values, set c | c in clients.Values :: c.buf
  {
    map t | t in clients && clients[t].Valid() :: clients[t].buf[clients[t].capacity..]
  }

  method ReceiveOne(dev: SerialDevice, port: Uart.Port, clients: map<nibble, Client>, a: Arrival)
    requires dev.Valid() && dev.state == Type && port.rx == [] && dev.wired == clients.Keys && Ready(clients)
    requires Receivable(a, clients, port.greedy)
    modifies dev, port, clients.Values, set c | c in clients.Values :: c.buf
    ensures dev.Valid() && dev.state == Type && port.rx == [] && Ready(clients) && Past(clients) == old(Past(clients))
    ensures var r := React(old(dev.Value()), a.frame);
            dev.Value() == r.dev && dev.sent == old(dev.sent) + r.replies
  {
    if IsData(a.frame) {
      var client := clients[a.frame.hdr.typ];
      ReceiveFrame(dev, port, client, a.chunks, a.frame);
    } else {
      ReceiveOther(dev, port, a.chunks, a.frame);
    }
  }

  /** Every stream of data frames, PROTOCOL_INFO frames and acknowledgements for any mix
      of clients, in any order and with every split: the byte-level device refines
      `ReactAll`, and no client's buffer is written past its end. For an advancing client
      the split must leave the payload in one piece. */
  method ReceiveAll(dev: SerialDevice, port: Uart.Port, clients: map<nibble, Client>, arrivals: seq<Arrival>)
    requires dev.Valid() && dev.state == Type && port.rx == [] && dev.wired == clients.Keys && Ready(clients)
    requires forall a :: a in arrivals ==> Receivable(a, clients, port.greedy)
    modifies dev, port, clients.Values, set c | c in clients.Values :: c.buf
    ensures dev.Valid() && dev.state == Type && port.rx == [] && Ready(clients)
    ensures var r := ReactAll(old(dev.Value()), Sequence(arrivals));
            dev.Value() == r.dev && dev.sent == old(dev.sent) + r.replies
    ensures Past(clients) == old(Past(clients))
  {
    ghost var fs := Sequence(arrivals);
    for n := 0 to |arrivals|
      invariant dev.Valid() && dev.state == Type && port.rx == []
      invariant Ready(clients) && Past(clients) == old(Past(clients))
      invariant var r := ReactAll(old(dev.Value()), fs[..n]);
                dev.Value() == r.dev && dev.sent == old(dev.sent) + r.replies
    {
      var a := arrivals[n];
      assert a in arrivals;
      ReactSnoc(old(dev.Value()), fs[..n], fs[n]);
      NextPrefix(fs, n);
      ReceiveOne(dev, port, clients, a);
    }
    assert fs[..|arrivals|] == fs;
  }
}
