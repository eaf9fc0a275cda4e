/** The C host's requests: `bus_sync`, `bus_request` and `bus_send` over the link,
with the receive work acknowledging every data frame on its own. Functions on
values say what a call does; the methods of `Bus` are proved to do that, and the
laws are proved of the functions. */
module HostBus {
  import opened Wire
  import opened Protocol
  import opened Link
  import opened LinkState
  import opened Multiplexer
  import HostReceiver
  import RustFrame
  import Stream

  /** `StillWaiting` is no return value: it says that a call had not returned after the
      number of frames it was watched for. */
  datatype Errno = Zero | NoDevice | InvalidArgument | NotSupported | TimedOut | StillWaiting

  const SYNC_RETRIES: nat := 4

  /** The link and the host's part of the state. `handed` are the frames handed to the
      requester so far, `requests` and `queries` count what was transmitted. */
  datatype BusState = BusState(
    tx: byte, mask: word, w: World, script: seq<Event>, handed: seq<Frame>, requests: nat, queries: nat)

  datatype HandOverResult = HandOverResult(got: Option<Frame>, host: BusState)

  datatype SyncResult = SyncResult(done: bool, r: Errno, host: BusState)

  datatype RequestResult = RequestResult(r: Errno, response: seq<byte>, resynced: bool, host: BusState)

  /** This is what the receive work of `HostReceiver` does with a frame it accepts. */
  lemma AutoAckIsReceivers(f: Frame)
    requires ValidateRx(f.hdr) == Ok
    ensures HostReceiver.AckFor(Stream.Whole(f)) == AutoAck(f)
  {
  }

  function NextTx(tx: byte): byte {
    if tx >= SEQUENCE_NUMBER_MAX then 0 else tx + 1
  }

  /** The frame both `bus_send` and `bus_request` build. */
  function Outgoing(typ: nibble, tx: byte, payload: seq<byte>): (f: Frame)
    ensures Carries(f, typ, tx % 16, payload)
  {
    Frame(Header(typ, false, false, NO_ERROR, 0, tx % 16, |payload| % 65536), payload)
  }

  /** On the wire it is, for every type, number and length, what the Rust host encodes. */
  lemma OutgoingBytes(t: RustFrame.SerialType, tx: byte, payload: seq<byte>)
    ensures FrameBytes(Outgoing(RustFrame.ToU8(t), tx, payload)) == RustFrame.EncodeHostFrame(t, tx, payload)
  {
    var n := |payload| % 65536;
    assert EncodeHeader(Outgoing(RustFrame.ToU8(t), tx, payload).hdr) ==
           [RustFrame.ToU8(t), tx % 16 * 16, n / 256, n % 256];
  }

  lemma OutgoingShape(typ: nibble, tx: nibble, payload: seq<byte>)
    requires 0 < |payload| <= MAX_PAYLOAD_LEN && typ != TYPE_PROTOCOL_INFO
    ensures var f := Outgoing(typ, tx, payload);
            IsData(f) && f.hdr.number == tx && f.hdr.typ == typ && WellFormed(f)
    ensures NextTx(tx) == Next(tx)
  {
  }

  function Sent(h: BusState, typ: nibble, payload: seq<byte>): BusState {
    h.(w := h.w.(up := h.w.up + [Outgoing(typ, h.tx, payload)]), tx := NextTx(h.tx))
  }

  /** Waits on `rx_sem`: the next frame the work item hands to the requester. */
  function HandOver(h: BusState, client: Answers): HandOverResult {
    var a := Awaited(h.w, h.script, client);
    match a.got
    case None => HandOverResult(None, h.(w := a.w, script := a.script))
    case Some(f) =>
      HandOverResult(Some(f), h.(w := a.w.(up := a.w.up + AutoAck(f)), script := a.script, handed := h.handed + [f]))
  }

  function Query(tx: byte): Frame {
    Frame(Header(TYPE_PROTOCOL_INFO, true, false, NO_ERROR, 0, tx % 16, 0), [])
  }

  /** The query on the wire: an empty PROTOCOL_INFO frame that wants no acknowledgement. */
  lemma QueryBytes(tx: byte)
    ensures FrameBytes(Query(tx)) == [23, tx % 16 * 16, 0, 0]
  {
    assert EncodeHeader(Query(tx).hdr) + [] == [23, tx % 16 * 16, 0, 0];
  }

  function Queried(h: BusState): BusState {
    h.(w := h.w.(up := h.w.up + [Query(h.tx)]), queries := h.queries + 1)
  }

  /** What `bus_sync` makes of the frame it was handed. */
  function Learn(h: BusState, f: Frame): SyncResult {
    if !IsAnswer(f) then SyncResult(false, TimedOut, h)
    else match HostInfo(f.payload)
      case None => SyncResult(true, NotSupported, h)
      case Some(i) => SyncResult(true, Zero, h.(mask := i.mask, tx := i.next))
  }

  function SyncAttempt(h: BusState, client: Answers): SyncResult {
    var n := HandOver(Queried(h), client);
    match n.got
    case None => SyncResult(false, TimedOut, n.host)
    case Some(f) => Learn(n.host, f)
  }

  /** `bus_sync` with `tries` attempts left. */
  function Sync(h: BusState, client: Answers, tries: nat): SyncResult
    decreases tries
  {
    if tries == 0 then SyncResult(true, TimedOut, h)
    else
      var a := SyncAttempt(h, client);
      if a.done then a else Sync(a.host, client, tries - 1)
  }

  lemma SyncUnfold(h: BusState, client: Answers, tries: nat, a: SyncResult)
    requires tries > 0 && a == SyncAttempt(h, client)
    ensures Sync(h, client, tries) == if a.done then a else Sync(a.host, client, tries - 1)
  {
  }

  /** The wait loop of `bus_request`, watched for `frames` frames: a response, a timeout,
      or a refusal followed by a resynchronisation. */
  function AwaitResponse(h: BusState, typ: nibble, client: Answers, frames: nat): RequestResult
    decreases frames
  {
    if frames == 0 then RequestResult(StillWaiting, [], false, h)
    else
      var n := HandOver(h, client);
      match n.got
      case None => RequestResult(TimedOut, [], false, n.host)
      case Some(f) =>
        if Refuses(f) then
          var s := Sync(n.host, client, SYNC_RETRIES);
          RequestResult(TimedOut, [], s.r == Zero, s.host)
        else if f.hdr.length > 0 && f.hdr.typ == typ then RequestResult(Zero, f.payload, false, n.host)
        else AwaitResponse(n.host, typ, client, frames - 1)
  }

  /** `bus_request` on an open bus with valid arguments. */
  function Request(h: BusState, typ: nibble, payload: seq<byte>, client: Answers, frames: nat): RequestResult {
    AwaitResponse(Sent(h, typ, payload).(requests := h.requests + 1), typ, client, frames)
  }

  class Bus {
    const port: Port
    var isOpen: bool
    var txSeq: byte
    var supportedTypes: word
    var requests: nat
    var queries: nat

    constructor (port: Port)
      ensures this.port == port && isOpen && txSeq == 0 && requests == queries == 0
    {
      this.port := port;
      isOpen, txSeq, supportedTypes, requests, queries := true, 0, 0, 0, 0;
    }

    ghost function Now(): BusState
      reads this, port
    {
      BusState(txSeq, supportedTypes, port.w, port.script, port.handed, requests, queries)
    }

    /** The length is narrowed to 16 bits before it is checked. */
    predicate Sendable(typ: int, payload: seq<byte>)
      reads this
    {
      var n := |payload| % 65536;
      isOpen && 0 <= typ <= 8 && (1 <= n <= 4096 || (n == 0 && typ == TYPE_PROTOCOL_INFO))
    }

    method TakeFrame() returns (got: Option<Frame>)
      modifies port
      ensures HandOverResult(got, Now()) == HandOver(old(Now()), port.client)
    {
      got := port.Await();
      if got.Some? {
        if got.value.hdr.length > 0 && !got.value.hdr.noAck {
          port.Send(Ack(got.value.hdr.typ, got.value.hdr.number, NO_ERROR, false));
        } else {
          assert port.w.up + AutoAck(got.value) == port.w.up;
        }
      }
    }

    /** One attempt of `bus_sync`: `done` when it settles the matter. */
    method TrySync() returns (done: bool, r: Errno)
      modifies port, this`txSeq, this`supportedTypes, this`queries
      ensures SyncResult(done, r, Now()) == SyncAttempt(old(Now()), port.client)
    {
      port.Send(Frame(Header(TYPE_PROTOCOL_INFO, true, false, NO_ERROR, 0, txSeq % 16, 0), []));
      queries := queries + 1;
      var got := TakeFrame();
      done, r := false, TimedOut;
      if got.Some? && IsAnswer(got.value) {
        done, r := true, NotSupported;
        var info := HostInfo(got.value.payload);
        if info.Some? {
          supportedTypes, txSeq, r := info.value.mask, info.value.next, Zero;
        }
      }
    }

    /** The same, seen as the first of `tries` attempts. */
    method TrySyncOf(ghost tries: nat) returns (done: bool, r: Errno)
      requires tries > 0
      modifies port, this`txSeq, this`supportedTypes, this`queries
      ensures Sync(old(Now()), port.client, tries) ==
              if done then SyncResult(true, r, Now()) else Sync(Now(), port.client, tries - 1)
    {
      ghost var h := Now();
      done, r := TrySync();
      SyncUnfold(h, port.client, tries, SyncResult(done, r, Now()));
    }

    /** `bus_sync`, with `tries` for its number of attempts. */
    method Synchronise(tries: nat) returns (r: Errno)
      modifies port, this`txSeq, this`supportedTypes, this`queries
      ensures SyncResult(true, r, Now()) == Sync(old(Now()), port.client, tries)
    {
      ghost var all := Sync(Now(), port.client, tries);
      for k := 0 to tries
        invariant Sync(Now(), port.client, tries - k) == all
      {
        var done;
        done, r := TrySyncOf(tries - k);
        if done {
          return;
        }
      }
      r := TimedOut;
    }

    /** Builds the frame, advances the counter and transmits. */
    method Transmit(typ: nibble, payload: seq<byte>)
      modifies port`w, port`wrote, this`txSeq
      ensures Now() == Sent(old(Now()), typ, payload)
    {
      var f := Frame(Header(typ, false, false, NO_ERROR, 0, txSeq % 16, |payload| % 65536), payload);
      txSeq := if txSeq >= SEQUENCE_NUMBER_MAX then 0 else txSeq + 1;
      port.Send(f);
    }

    /** `bus_send`. */
    method Send(typ: int, payload: seq<byte>) returns (r: Errno)
      modifies port`w, port`wrote, this`txSeq
      ensures old(Sendable(typ, payload)) ==> r == Zero && Now() == Sent(old(Now()), typ, payload)
      ensures r == Zero ==>
                && 0 <= typ <= 8 && port.w.up != [] && port.w.up[..|port.w.up| - 1] == old(port.w.up)
                && Carries(port.w.up[|port.w.up| - 1], typ, old(txSeq) % 16, payload)
                && txSeq == (if old(txSeq) < 15 then old(txSeq) + 1 else 0)
      ensures !old(Sendable(typ, payload)) ==>
                Now() == old(Now()) && r == if isOpen then InvalidArgument else NoDevice
    {
      if !isOpen {
        return NoDevice;
      }
      if typ < 0 || typ >= TYPE_UNKNOWN || ValidateTx(typ, |payload| % 65536) != Ok {
        return InvalidArgument;
      }
      Transmit(typ, payload);
      r := Zero;
    }

    /** The wait loop of `bus_request`. */
    method Wait(typ: nibble, frames: nat) returns (r: Errno, response: seq<byte>, resynced: bool)
      modifies port, this`txSeq, this`supportedTypes, this`queries
      ensures RequestResult(r, response, resynced, Now()) == AwaitResponse(old(Now()), typ, port.client, frames)
    {
      var left := frames;
      while left > 0
        invariant AwaitResponse(Now(), typ, port.client, left) ==
                  AwaitResponse(old(Now()), typ, port.client, frames)
      {
        var got := TakeFrame();
        if got == None {
          return TimedOut, [], false;
        }
        var f := got.value;
        left := left - 1;
        if f.hdr.length == 0 {
          if f.hdr.error == INCORRECT_SEQUENCE_NUMBER {
            var s := Synchronise(SYNC_RETRIES);
            return TimedOut, [], s == Zero;
          }
          continue;
        }
        if f.hdr.typ == typ {
          return Zero, f.payload, false;
        }
      }
      r, response, resynced := StillWaiting, [], false;
    }

    /** `bus_request`, as written: the guard of its loop ends it after a resynchronisation,
        so the documented retry never happens. `resynced` tells a request that timed out
        after a successful resynchronisation from the others. */
    method Ask(typ: int, payload: seq<byte>, frames: nat) returns (r: Errno, response: seq<byte>, resynced: bool)
      modifies port, this
      ensures old(Sendable(typ, payload)) ==>
                RequestResult(r, response, resynced, Now()) == Request(old(Now()), typ, payload, port.client, frames)
      ensures !old(Sendable(typ, payload)) ==>
                && Now() == old(Now()) && response == [] && !resynced
                && r == if old(isOpen) then InvalidArgument else NoDevice
    {
      r, response, resynced := InvalidArgument, [], false;
      if !isOpen {
        return NoDevice, [], false;
      }
      if typ < 0 || typ >= TYPE_UNKNOWN || ValidateTx(typ, |payload| % 65536) != Ok {
        return;
      }
      ghost var all := Request(Now(), typ, payload, port.client, frames);
      var retried, attempt := false, 0;
      while attempt < 2 && !retried
        invariant attempt == 0 ==> Now() == old(Now()) && !retried
        invariant attempt > 0 ==> retried && all == RequestResult(TimedOut, [], resynced, Now()) && response == []
      {
        requests := requests + 1;
        Transmit(typ, payload);
        r, response, resynced := Wait(typ, frames);
        if !resynced {
          return;
        }
        assert r == TimedOut && response == [] by {
          ResyncedFails(Sent(old(Now()), typ, payload).(requests := old(requests) + 1), typ, port.client, frames);
        }
        retried, attempt := true, attempt + 1;
      }
      r := TimedOut;
    }
  }

  lemma {:induction false} ResyncedFails(h: BusState, typ: nibble, client: Answers, frames: nat)
    ensures var q := AwaitResponse(h, typ, client, frames);
            q.resynced ==> q.r == TimedOut && q.response == []
    decreases frames
  {
    if frames > 0 && HandOver(h, client).got.Some? {
      ResyncedFails(HandOver(h, client).host, typ, client, frames - 1);
    }
  }

  // ---------------------------------------------------------------- what was handed over

  predicate IsResponse(f: Frame, typ: nibble) {
    f.hdr.length > 0 && f.hdr.typ == typ
  }

  /** `response` is the payload of the last frame handed over, the first data frame of
      type `typ` among those after the first `n`, and none of these is a refusal. */
  ghost predicate FirstResponse(handed: seq<Frame>, n: nat, typ: nibble, response: seq<byte>) {
    && n < |handed|
    && IsResponse(handed[|handed| - 1], typ) && response == handed[|handed| - 1].payload
    && (forall k :: n <= k < |handed| - 1 ==> !IsResponse(handed[k], typ) && !Refuses(handed[k]))
  }

  ghost predicate SomeRefusal(handed: seq<Frame>, n: nat) {
    exists k :: n <= k < |handed| && Refuses(handed[k])
  }

  lemma AttemptQueries(h: BusState, client: Answers)
    ensures var s := SyncAttempt(h, client);
            && s.host.queries == h.queries + 1 && s.host.requests == h.requests && h.handed <= s.host.handed
            && (s.r != Zero ==> s.host.tx == h.tx && s.host.mask == h.mask)
  {
  }

  lemma {:induction false} SyncQueries(h: BusState, client: Answers, tries: nat)
    ensures var s := Sync(h, client, tries);
            && h.queries <= s.host.queries <= h.queries + tries && (tries > 0 ==> h.queries < s.host.queries)
            && s.host.requests == h.requests && h.handed <= s.host.handed
            && (s.r != Zero ==> s.host.tx == h.tx && s.host.mask == h.mask)
    decreases tries
  {
    if tries > 0 {
      AttemptQueries(h, client);
      SyncQueries(SyncAttempt(h, client).host, client, tries - 1);
    }
  }

  /** What a wait that ends in `q` says about the frames handed over since `n`. */
  ghost predicate Accounted(h: BusState, q: RequestResult, typ: nibble, n: nat) {
    && q.host.requests == h.requests && h.handed <= q.host.handed && h.queries <= q.host.queries
    && (q.r == Zero ==> FirstResponse(q.host.handed, n, typ, q.response))
    && (SomeRefusal(q.host.handed, n) <==> h.queries < q.host.queries)
    && (h.queries < q.host.queries ==> q.r == TimedOut && q.host.queries <= h.queries + SYNC_RETRIES)
    && (h.queries == q.host.queries ==> !q.resynced && q.host.tx == h.tx)
  }

  /** One more frame in front that is neither a response nor a refusal. */
  lemma AccountedLater(h: BusState, m: BusState, q: RequestResult, typ: nibble, f: Frame)
    requires m.handed == h.handed + [f] && m.requests == h.requests && m.queries == h.queries && m.tx == h.tx
    requires !Refuses(f) && !IsResponse(f, typ) && Accounted(m, q, typ, |m.handed|)
    ensures Accounted(h, q, typ, |h.handed|)
  {
    var n := |h.handed|;
    assert m.handed[n] == f && q.host.handed[n] == f;
    if SomeRefusal(q.host.handed, n) {
      var k :| n <= k < |q.host.handed| && Refuses(q.host.handed[k]);
      assert k != n;
    }
  }

  lemma {:induction false} WaitOutcome(h: BusState, typ: nibble, client: Answers, frames: nat)
    ensures Accounted(h, AwaitResponse(h, typ, client, frames), typ, |h.handed|)
    decreases frames
  {
    var n := HandOver(h, client);
    if frames > 0 && n.got.Some? {
      var f, q := n.got.value, AwaitResponse(h, typ, client, frames);
      if Refuses(f) {
        SyncQueries(n.host, client, SYNC_RETRIES);
        assert n.host.handed[|h.handed|] == f && q.host.handed[|h.handed|] == f;
      } else if !IsResponse(f, typ) {
        WaitOutcome(n.host, typ, client, frames - 1);
        AccountedLater(h, n.host, q, typ, f);
      }
    }
  }

  /** In every run: one request frame and never a second. Success means the first data
      frame of the requested type, and a refusal handed over before that always means
      failure, after one to four queries; without a refusal there are none. */
  lemma RequestOutcome(h: BusState, typ: nibble, payload: seq<byte>, client: Answers, frames: nat)
    ensures var q := Request(h, typ, payload, client, frames);
            && q.host.requests == h.requests + 1 && h.handed <= q.host.handed
            && (q.r == Zero ==> FirstResponse(q.host.handed, |h.handed|, typ, q.response))
            && (SomeRefusal(q.host.handed, |h.handed|) <==> h.queries < q.host.queries)
            && (SomeRefusal(q.host.handed, |h.handed|) ==>
                  q.r == TimedOut && q.host.queries <= h.queries + SYNC_RETRIES)
            && (q.resynced ==> SomeRefusal(q.host.handed, |h.handed|))
  {
    WaitOutcome(Sent(h, typ, payload).(requests := h.requests + 1), typ, client, frames);
  }

  // ---------------------------------------------------------------- invariants over a wait

  ghost predicate Honestly(h: BusState, client: Answers) {
    Honest(client) && HonestEvents(h.script)
  }

  ghost predicate Smooth(h: BusState) {
    forall e :: e in h.script ==> KeepsStep(e)
  }

  /** What holds of every world on the way holds when a frame is handed over; `mid` is
      the world just before. */
  lemma HandOverStable(h: BusState, client: Answers, inv: World -> bool) returns (mid: World)
    requires inv(h.w) && Stable(inv, h.script + [DeviceTakes], client)
    ensures var n := HandOver(h, client);
            && inv(mid) && (forall e :: e in n.host.script ==> e in h.script)
            && match n.got
               case None => n.host.w == mid
               case Some(f) => mid.down != [] && f == mid.down[0] && n.host.w == HandedOver(mid)
  {
    var events := AwaitedIsWaited(h.w, h.script, client);
    mid := ApplyAll(h.w, events, client);
    assert forall e :: e in events ==> e in h.script + [DeviceTakes];
    StableRun(inv, h.w, events, client);
    var a := Awaited(h.w, h.script, client);
    if a.got.Some? {
      assert mid.down[0] == a.got.value && mid.down[1..] == a.w.down;
    }
  }

  lemma HandOverInStep(h: BusState, client: Answers, tx: nibble)
    requires Honestly(h, client) && Smooth(h) && InStep(h.w, tx)
    ensures var n := HandOver(h, client);
            && Honestly(n.host, client) && Smooth(n.host) && n.host.tx == h.tx
            && InStep(n.host.w, tx) && Commands(n.host.w) == Commands(h.w) && n.host.w.dev.wired == h.w.dev.wired
            && (n.got.Some? ==> !IsRefusal(n.got.value))
  {
    var inv := (w: World) => InStep(w, tx) && Commands(w) == Commands(h.w) && w.dev.wired == h.w.dev.wired;
    forall w, e | e in h.script + [DeviceTakes] && inv(w) ensures inv(Apply(w, e, client)) {
      ApplyInStep(w, e, client, tx);
    }
    var mid := HandOverStable(h, client, inv);
    if mid.down != [] {
      HandedOverInStep(mid, tx);
    }
  }

  lemma HandOverTruthful(h: BusState, client: Answers, x: nibble)
    requires Honestly(h, client) && Truthful(h.w, x) && (x == 0 || Smooth(h))
    ensures var n := HandOver(h, client);
            && Honestly(n.host, client) && (Smooth(h) ==> Smooth(n.host))
            && Truthful(n.host.w, x) && n.host.w.dev.mask == h.w.dev.mask
            && (n.got.Some? ==> Says(n.got.value, h.w.dev.mask, x))
  {
    var inv := (w: World) => Truthful(w, x) && w.dev.mask == h.w.dev.mask;
    forall w, e | e in h.script + [DeviceTakes] && inv(w) ensures inv(Apply(w, e, client)) {
      ApplyTruthful(w, e, client, x);
    }
    var mid := HandOverStable(h, client, inv);
    if mid.down != [] {
      HandedOverTruthful(mid, x);
    }
  }

  lemma HandOverOrdered(h: BusState, client: Answers)
    requires Honestly(h, client) && Ordered(h.w)
    ensures var n := HandOver(h, client);
            && Honestly(n.host, client) && Ordered(n.host.w)
            && (n.got.Some? && IsRefusal(n.got.value) ==> Truthful(n.host.w, 0))
  {
    var inv := (w: World) => Ordered(w);
    forall w, e | e in h.script + [DeviceTakes] && inv(w) ensures inv(Apply(w, e, client)) {
      ApplyOrdered(w, e, client);
    }
    var mid := HandOverStable(h, client, inv);
    if mid.down != [] {
      HandedOverOrdered(mid);
    }
  }

  lemma HandOverResyncable(h: BusState, client: Answers)
    requires Honestly(h, client) && Resyncable(h.w)
    ensures var n := HandOver(h, client);
            && Honestly(n.host, client) && Resyncable(n.host.w)
            && (n.got.Some? && Refuses(n.got.value) ==> Cleared(n.host.w))
  {
    var inv := (w: World) => Resyncable(w);
    forall w, e | e in h.script + [DeviceTakes] && inv(w) ensures inv(Apply(w, e, client)) {
      ApplyResyncable(w, e, client);
    }
    var mid := HandOverStable(h, client, inv);
    if mid.down != [] {
      HandedOverResyncable(mid);
    }
  }

  lemma HandOverCleared(h: BusState, client: Answers)
    requires Honestly(h, client) && Cleared(h.w)
    ensures var n := HandOver(h, client);
            && Honestly(n.host, client) && Cleared(n.host.w)
            && (n.got.Some? ==> Tells(n.got.value, 0))
  {
    var inv := (w: World) => Cleared(w);
    forall w, e | e in h.script + [DeviceTakes] && inv(w) ensures inv(Apply(w, e, client)) {
      ApplyCleared(w, e, client);
    }
    var mid := HandOverStable(h, client, inv);
    if mid.down != [] {
      HandedOverResyncable(mid);
    }
  }

  // ---------------------------------------------------------------- resynchronisation

  lemma AttemptTruthful(h: BusState, client: Answers, x: nibble)
    requires Honestly(h, client) && Truthful(h.w, x) && (x == 0 || Smooth(h))
    ensures var a := SyncAttempt(h, client);
            && Honestly(a.host, client) && (Smooth(h) ==> Smooth(a.host)) && Truthful(a.host.w, x)
            && (a.done ==> a.r == Zero && a.host.tx == x && a.host.mask == a.host.w.dev.mask)
  {
    PushOther(h.w, Query(h.tx));
    HandOverTruthful(Queried(h), client, x);
  }

  lemma TruthfulInStep(w: World, x: nibble)
    requires Truthful(w, x)
    ensures InStep(w, x)
  {
  }

  /** `bus_sync` when no command is in flight and the answers in flight are true: it
      succeeds or times out, and success puts counter and mask at the device's. */
  lemma {:induction false} SyncTruthful(h: BusState, client: Answers, x: nibble, tries: nat)
    requires Honestly(h, client) && Truthful(h.w, x) && (x == 0 || Smooth(h))
    ensures var s := Sync(h, client, tries);
            && Truthful(s.host.w, x) && (s.r == Zero || s.r == TimedOut)
            && (s.r == Zero ==> s.host.tx == x && s.host.mask == s.host.w.dev.mask && InStep(s.host.w, x))
    decreases tries
  {
    if tries > 0 {
      AttemptTruthful(h, client, x);
      var a := SyncAttempt(h, client);
      TruthfulInStep(a.host.w, x);
      if !a.done {
        SyncTruthful(a.host, client, x, tries - 1);
      }
    }
  }

  lemma {:induction false} SyncCleared(h: BusState, client: Answers, tries: nat)
    requires Honestly(h, client) && Cleared(h.w)
    ensures var s := Sync(h, client, tries);
            Cleared(s.host.w) && (s.r == Zero ==> s.host.tx == 0)
    decreases tries
  {
    if tries > 0 {
      PushOther(h.w, Query(h.tx));
      HandOverCleared(Queried(h), client);
      var a := SyncAttempt(h, client);
      if !a.done {
        SyncCleared(a.host, client, tries - 1);
      }
    }
  }

  lemma {:induction false} WaitOrdered(h: BusState, typ: nibble, client: Answers, frames: nat)
    requires Honestly(h, client) && Ordered(h.w)
    ensures var q := AwaitResponse(h, typ, client, frames);
            q.resynced ==> q.host.tx == 0 && InStep(q.host.w, 0) && q.host.mask == q.host.w.dev.mask
    decreases frames
  {
    if frames > 0 {
      HandOverOrdered(h, client);
      var n := HandOver(h, client);
      if n.got.Some? {
        if Refuses(n.got.value) {
          SyncTruthful(n.host, client, 0, SYNC_RETRIES);
        } else {
          WaitOrdered(n.host, typ, client, frames - 1);
        }
      }
    }
  }

  lemma {:induction false} WaitResyncable(h: BusState, typ: nibble, client: Answers, frames: nat)
    requires Honestly(h, client) && Resyncable(h.w)
    ensures var q := AwaitResponse(h, typ, client, frames);
            q.resynced ==> q.host.tx == q.host.w.dev.rx == 0
    decreases frames
  {
    if frames > 0 {
      HandOverResyncable(h, client);
      var n := HandOver(h, client);
      if n.got.Some? {
        if Refuses(n.got.value) {
          SyncCleared(n.host, client, SYNC_RETRIES);
        } else {
          WaitResyncable(n.host, typ, client, frames - 1);
        }
      }
    }
  }

  lemma {:induction false} WaitInStep(h: BusState, typ: nibble, client: Answers, frames: nat, tx: nibble)
    requires Honestly(h, client) && Smooth(h) && InStep(h.w, tx)
    ensures var q := AwaitResponse(h, typ, client, frames);
            && !q.resynced && q.host.queries == h.queries && q.host.tx == h.tx
            && InStep(q.host.w, tx) && Commands(q.host.w) == Commands(h.w)
    decreases frames
  {
    if frames > 0 {
      HandOverInStep(h, client, tx);
      var n := HandOver(h, client);
      if n.got.Some? {
        WaitInStep(n.host, typ, client, frames - 1, tx);
      }
    }
  }

  /** A request that is resynchronised, in any run, from a link on which this is possible
      (`Resyncable` after sending the request): host and device count from 0 again. If
      moreover nothing but harmless frames was in flight, the two are in step. */
  lemma ResyncedInStep(h: BusState, typ: nibble, payload: seq<byte>, client: Answers, frames: nat)
    requires Honestly(h, client)
    ensures var q := Request(h, typ, payload, client, frames);
            && (Resyncable(Sent(h, typ, payload).w) && q.resynced ==> q.host.tx == q.host.w.dev.rx == 0)
            && (DataOf(h.w.up) == [] && (forall f :: f in h.w.down ==> !IsRefusal(f)) && q.resynced ==>
                  q.host.tx == 0 && InStep(q.host.w, 0) && q.host.mask == q.host.w.dev.mask)
  {
    var s := Sent(h, typ, payload).(requests := h.requests + 1);
    if Resyncable(s.w) {
      WaitResyncable(s, typ, client, frames);
    }
    if DataOf(h.w.up) == [] && (forall f :: f in h.w.down ==> !IsRefusal(f)) {
      PushOrdered(h.w, Outgoing(typ, h.tx, payload));
      WaitOrdered(s, typ, client, frames);
    }
  }

  /** A request on a link in step: never refused, never out of step, and the command is
      in its place behind all earlier ones. */
  lemma RequestInStep(h: BusState, typ: nibble, payload: seq<byte>, client: Answers, frames: nat)
    requires Honestly(h, client) && Smooth(h) && h.tx < 16 && InStep(h.w, h.tx)
    requires typ in h.w.dev.wired && typ != TYPE_PROTOCOL_INFO && 0 < |payload| <= MAX_PAYLOAD_LEN
    ensures var q := Request(h, typ, payload, client, frames);
            && !q.resynced && q.host.queries == h.queries
            && q.host.tx == Next(h.tx) && InStep(q.host.w, Next(h.tx))
            && Commands(q.host.w) == Commands(h.w) + [Outgoing(typ, h.tx, payload)]
            && Carries(Commands(q.host.w)[|Commands(h.w)|], typ, h.tx, payload)
  {
    var f := Outgoing(typ, h.tx, payload);
    OutgoingShape(typ, h.tx, payload);
    PushInStep(h.w, f);
    WaitInStep(Sent(h, typ, payload).(requests := h.requests + 1), typ, client, frames, Next(h.tx));
  }
}
