/** The Rust host's `Session`: drain, resynchronise, and send a command that is retried
once after a sequence refusal. Functions on values say what a call does; the methods
are proved to do that, and the laws are proved of the functions. */
module Session {
  import opened Wire
  import opened Protocol
  import opened Link
  import opened Once
  import RustFrame

  datatype Result =
    | Response(frame: Frame)
    | TimedOut
    | DeviceError(error: crumb)

  const SYNC_TRIES: nat := 4

  /** The link and the session's part of the state. `handed` are the frames read and
      `wrote` those transmitted, `commands` and `queries` count them by kind. */
  datatype SessionState = SessionState(
    tx: byte, w: World, script: seq<Event>, handed: seq<Frame>, wrote: seq<Frame>,
    commands: nat, queries: nat)

  datatype ReadOutcome = ReadOutcome(got: Option<Frame>, host: SessionState)

  datatype SyncOutcome = SyncOutcome(next: Option<byte>, host: SessionState)

  datatype RequestOutcome = RequestOutcome(r: Result, retried: bool, host: SessionState)

  /** `encode_host_frame`, seen as a frame. */
  function Command(typ: nibble, number: byte, payload: seq<byte>): (f: Frame)
    ensures |payload| <= MAX_PAYLOAD_LEN ==> WellFormed(f)
    ensures Carries(f, typ, number % 16, payload)
  {
    Frame(Header(typ, false, false, NO_ERROR, 0, number % 16, |payload| % 65536), payload)
  }

  lemma CommandBytes(t: RustFrame.SerialType, number: byte, payload: seq<byte>)
    requires |payload| <= MAX_PAYLOAD_LEN
    ensures RustFrame.EncodeHostFrame(t, number, payload) == FrameBytes(Command(RustFrame.ToU8(t), number, payload))
  {
    RustFrame.EncodeIsC(t, number, payload);
  }

  function Query(number: byte): Frame {
    Command(TYPE_PROTOCOL_INFO, number, [0])
  }

  /** `protocol_info_query` on the wire. */
  lemma QueryBytes(number: byte)
    ensures FrameBytes(Query(number)) == [7, number % 16 * 16, 0, 1, 0]
  {
    HeaderBytes(TYPE_PROTOCOL_INFO, number % 16, 1);
  }

  /** `send`: what has arrived is discarded, then the frame is written. */
  function Sent(h: SessionState, f: Frame): SessionState {
    h.(w := h.w.(up := h.w.up + [f], down := Outliving(h.w.down, h.script)), script := AfterDrain(h.script),
       wrote := h.wrote + [f])
  }

  /** `read_frame`. */
  function Read(h: SessionState, client: Answers): ReadOutcome {
    var a := Awaited(h.w, h.script, client);
    ReadOutcome(a.got, h.(w := a.w, script := a.script, handed := h.handed + Log(a.got)))
  }

  /** One query of `sync` and the frame read after it. */
  function Asked(h: SessionState, client: Answers): ReadOutcome {
    Read(Sent(h, Query(h.tx)).(queries := h.queries + 1), client)
  }

  /** `sync` with `tries` queries left. */
  function Sync(h: SessionState, client: Answers, tries: nat): SyncOutcome
    decreases tries
  {
    if tries == 0 then SyncOutcome(None, h)
    else
      var a := Asked(h, client);
      match a.got
      case None => SyncOutcome(None, a.host)
      case Some(f) =>
        if IsInfoResponse(f) then SyncOutcome(Some(f.payload[3]), a.host.(tx := f.payload[3]))
        else Sync(a.host, client, tries - 1)
  }

  lemma SyncUnfold(h: SessionState, client: Answers, tries: nat)
    requires tries > 0
    ensures var a := Asked(h, client);
            Sync(h, client, tries) ==
            match a.got
            case None => SyncOutcome(None, a.host)
            case Some(f) =>
              if IsInfoResponse(f) then SyncOutcome(Some(f.payload[3]), a.host.(tx := f.payload[3]))
              else Sync(a.host, client, tries - 1)
  {
  }

  /** The command goes out with `number`, and the counter is the one after. */
  function SentCommand(h: SessionState, typ: nibble, number: byte, payload: seq<byte>): SessionState {
    Sent(h, Command(typ, number, payload)).(tx := (number % 16 + 1) % 16, commands := h.commands + 1)
  }

  /** The read loop of `request`. */
  function Answer(h: SessionState, typ: nibble, payload: seq<byte>, retried: bool,
                  matches: Frame -> bool, client: Answers): RequestOutcome
    decreases !retried, |h.script|, |h.w.up|, |h.w.down|
  {
    var a := Read(h, client);
    AwaitedLess(h.w, h.script, client);
    match a.got
    case None => RequestOutcome(TimedOut, retried, a.host)
    case Some(f) =>
      if IsRefusal(f) && !retried then
        var s := Sync(a.host, client, SYNC_TRIES);
        match s.next
        case None => RequestOutcome(TimedOut, retried, s.host)
        case Some(n) => Answer(SentCommand(s.host, typ, n, payload), typ, payload, true, matches, client)
      else if f.hdr.error != NO_ERROR then RequestOutcome(DeviceError(f.hdr.error), retried, a.host)
      else if f.payload != [] && matches(f) then RequestOutcome(Response(f), retried, a.host)
      else Answer(a.host, typ, payload, retried, matches, client)
  }

  /** `request`. */
  function Request(h: SessionState, typ: nibble, payload: seq<byte>, matches: Frame -> bool, client: Answers)
    : RequestOutcome
  {
    Answer(SentCommand(h, typ, h.tx, payload), typ, payload, false, matches, client)
  }

  class Session {
    const port: Port
    var txSeq: byte
    var commands: nat
    var queries: nat

    constructor (port: Port)
      ensures this.port == port && txSeq == 0 && commands == 0 && queries == 0
    {
      this.port := port;
      txSeq, commands, queries := 0, 0, 0;
    }

    ghost function Now(): SessionState
      reads this, port
    {
      SessionState(txSeq, port.w, port.script, port.handed, port.wrote, commands, queries)
    }

    method Send(f: Frame)
      modifies port`w, port`script, port`wrote
      ensures Now() == Sent(old(Now()), f)
    {
      port.Drain();
      port.Send(f);
    }

    method ReadFrame() returns (got: Option<Frame>)
      modifies port
      ensures ReadOutcome(got, Now()) == Read(old(Now()), port.client)
    {
      got := port.Await();
    }

    method AskNumber() returns (got: Option<Frame>)
      modifies port, this`queries
      ensures ReadOutcome(got, Now()) == Asked(old(Now()), port.client)
    {
      queries := queries + 1;
      Send(Query(txSeq));
      got := ReadFrame();
    }

    /** The first of `tries` queries: `done` when it settles the matter. */
    method TrySync(ghost tries: nat) returns (done: bool, next: Option<byte>)
      requires tries > 0
      modifies port, this`txSeq, this`queries
      ensures Sync(old(Now()), port.client, tries) ==
              if done then SyncOutcome(next, Now()) else Sync(Now(), port.client, tries - 1)
    {
      SyncUnfold(Now(), port.client, tries);
      var got := AskNumber();
      done, next := true, None;
      if got.Some? {
        if IsInfoResponse(got.value) {
          txSeq := got.value.payload[3];
          next := Some(txSeq);
        } else {
          done := false;
        }
      }
    }

    /** `sync`, with `tries` for its number of queries. */
    method Synchronise(tries: nat) returns (next: Option<byte>)
      modifies port, this`txSeq, this`queries
      ensures SyncOutcome(next, Now()) == Sync(old(Now()), port.client, tries)
    {
      ghost var all := Sync(Now(), port.client, tries);
      for n := 0 to tries
        invariant Sync(Now(), port.client, tries - n) == all
      {
        var done;
        done, next := TrySync(tries - n);
        if done {
          return;
        }
      }
      next := None;
    }

    method SendCommand(typ: nibble, number: byte, payload: seq<byte>)
      modifies port`w, port`script, port`wrote, this`txSeq, this`commands
      ensures Now() == SentCommand(old(Now()), typ, number, payload)
    {
      txSeq := (number % 16 + 1) % 16;
      Send(Command(typ, number, payload));
      commands := commands + 1;
    }

    method Ask(typ: nibble, payload: seq<byte>, matches: Frame -> bool) returns (r: Result, ghost retried': bool)
      modifies port, this
      ensures RequestOutcome(r, retried', Now()) == Request(old(Now()), typ, payload, matches, port.client)
    {
      SendCommand(typ, txSeq, payload);
      var retried := false;
      ghost var all := Answer(Now(), typ, payload, false, matches, port.client);
      while true
        invariant Answer(Now(), typ, payload, retried, matches, port.client) == all
        decreases !retried, |port.script|, |port.w.up|, |port.w.down|
      {
        AwaitedLess(port.w, port.script, port.client);
        var got := ReadFrame();
        if got == None {
          return TimedOut, retried;
        }
        var f := got.value;
        if f.hdr.error != NO_ERROR {
          if f.hdr.error == INCORRECT_SEQUENCE_NUMBER && !retried {
            var next := Synchronise(SYNC_TRIES);
            if next == None {
              return TimedOut, retried;
            }
            SendCommand(typ, next.value, payload);
            retried := true;
            continue;
          }
          return DeviceError(f.hdr.error), retried;
        }
        if f.payload != [] && matches(f) {
          return Response(f), retried;
        }
      }
    }
  }

  // ---------------------------------------------------------------- every run

  /** A response or an error is the frame read last. */
  ghost predicate Explained(r: Result, handed: seq<Frame>, matches: Frame -> bool) {
    match r
    case TimedOut => true
    case Response(f) =>
      handed != [] && f == handed[|handed| - 1] && f.payload != [] && f.hdr.error == NO_ERROR && matches(f)
    case DeviceError(e) =>
      handed != [] && handed[|handed| - 1].hdr.error == e && e != NO_ERROR
  }

  /** A frame that the read loop of `request` passes over: no error and no match. */
  predicate Harmless(f: Frame, matches: Frame -> bool) {
    f.hdr.error == NO_ERROR && (f.payload == [] || !matches(f))
  }

  /** The first frame that is not harmless decides, and is the last one read: an error
      is the device's, anything else the response. Without one there is none. */
  ghost predicate Verdict(read: seq<Frame>, matches: Frame -> bool, r: Result) {
    && (forall k :: 0 <= k < |read| - 1 ==> Harmless(read[k], matches))
    && if read == [] || Harmless(read[|read| - 1], matches) then r == TimedOut
       else if read[|read| - 1].hdr.error != NO_ERROR then r == DeviceError(read[|read| - 1].hdr.error)
       else r == Response(read[|read| - 1])
  }

  lemma VerdictLater(f: Frame, read: seq<Frame>, matches: Frame -> bool, r: Result)
    requires Harmless(f, matches) && Verdict(read, matches, r)
    ensures Verdict([f] + read, matches, r)
  {
    var all := [f] + read;
    assert forall k :: 1 <= k < |all| ==> all[k] == read[k - 1];
    assert read != [] ==> all[|all| - 1] == read[|read| - 1];
  }

  lemma {:induction false} SyncCounts(h: SessionState, client: Answers, tries: nat)
    ensures var s := Sync(h, client, tries);
            && s.host.commands == h.commands && h.queries <= s.host.queries <= h.queries + tries
            && h.handed <= s.host.handed
            && (s.next.Some? ==> s.host.tx == s.next.value) && (s.next == None ==> s.host.tx == h.tx)
    decreases tries
  {
    if tries > 0 {
      SyncCounts(Asked(h, client).host, client, tries - 1);
    }
  }

  lemma {:induction false} AnswerCounts(h: SessionState, typ: nibble, payload: seq<byte>, retried: bool,
                                        matches: Frame -> bool, client: Answers)
    ensures var q := Answer(h, typ, payload, retried, matches, client);
            && q.host.commands == h.commands + (if q.retried && !retried then 1 else 0)
            && h.queries <= q.host.queries <= h.queries + (if retried then 0 else 4)
            && (retried ==> q.retried) && h.handed <= q.host.handed && Explained(q.r, q.host.handed, matches)
    decreases !retried, |h.script|, |h.w.up|, |h.w.down|
  {
    var a := Read(h, client);
    AwaitedLess(h.w, h.script, client);
    if a.got.Some? {
      var f := a.got.value;
      if IsRefusal(f) && !retried {
        SyncCounts(a.host, client, SYNC_TRIES);
        var s := Sync(a.host, client, SYNC_TRIES);
        if s.next.Some? {
          AnswerCounts(SentCommand(s.host, typ, s.next.value, payload), typ, payload, true, matches, client);
        }
      } else if f.hdr.error == NO_ERROR && !(f.payload != [] && matches(f)) {
        AnswerCounts(a.host, typ, payload, retried, matches, client);
      }
    }
  }

  /** In every run at most two command frames and four queries go out, and a response or
      an error is the frame read last. */
  lemma RequestCounts(h: SessionState, typ: nibble, payload: seq<byte>, matches: Frame -> bool, client: Answers)
    ensures var q := Request(h, typ, payload, matches, client);
            && q.host.commands == h.commands + (if q.retried then 2 else 1)
            && h.queries <= q.host.queries <= h.queries + 4
            && Explained(q.r, q.host.handed, matches)
  {
    AnswerCounts(SentCommand(h, typ, h.tx, payload), typ, payload, false, matches, client);
  }

  // ---------------------------------------------------------------- at most once

  /** What makes a frame a copy of the caller's command. */
  function IsCommand(typ: nibble, payload: seq<byte>): Frame -> bool {
    (f: Frame) => f.payload == payload && f.hdr.typ == typ
  }

  /** `after` is `before`, or `before` and one command. */
  ghost predicate AtMostOneMore(before: seq<Frame>, after: seq<Frame>, mine: Frame -> bool) {
    after == before || (|after| == |before| + 1 && after == before + [after[|before|]] && mine(after[|before|]))
  }

  lemma OnceOutcome(w: World, base: seq<Frame>, mine: Frame -> bool)
    requires AtMostOnce(w, base, mine)
    ensures AtMostOneMore(base, w.dev.accepted, mine)
  {
  }

  lemma DrainKeeps(w: World, script: seq<Event>)
    ensures forall f :: f in Outliving(w.down, script) ==> f in w.down
    ensures HonestEvents(script) ==> HonestEvents(AfterDrain(script))
  {
  }

  /** A query goes out while nothing in flight has a chance. */
  lemma AskedHopeless(h: SessionState, client: Answers, base: seq<Frame>)
    requires Honest(client) && HonestEvents(h.script) && Hopeless(h.w, base)
    ensures var a := Asked(h, client);
            HonestEvents(a.host.script) && Hopeless(a.host.w, base)
  {
    var mine := IsCommand(0, []);
    DrainKeeps(h.w, h.script);
    FewerDown(h.w, Outliving(h.w.down, h.script), base, mine);
    PushOther(h.w.(down := Outliving(h.w.down, h.script)), Query(h.tx), base);
    var s := Sent(h, Query(h.tx));
    AwaitedWatched(s.w, s.script, client, base, mine);
  }

  lemma {:induction false} SyncHopeless(h: SessionState, client: Answers, tries: nat, base: seq<Frame>)
    requires Honest(client) && HonestEvents(h.script) && Hopeless(h.w, base)
    ensures var s := Sync(h, client, tries);
            HonestEvents(s.host.script) && Hopeless(s.host.w, base)
    decreases tries
  {
    if tries > 0 {
      AskedHopeless(h, client, base);
      SyncHopeless(Asked(h, client).host, client, tries - 1, base);
    }
  }

  lemma ResentOnce(h: SessionState, typ: nibble, number: byte, payload: seq<byte>, base: seq<Frame>)
    requires HonestEvents(h.script) && Hopeless(h.w, base)
    ensures var s := SentCommand(h, typ, number, payload);
            HonestEvents(s.script) && AtMostOnce(s.w, base, IsCommand(typ, payload))
  {
    var mine := IsCommand(typ, payload);
    DrainKeeps(h.w, h.script);
    FewerDown(h.w, Outliving(h.w.down, h.script), base, mine);
    PushCommand(h.w.(down := Outliving(h.w.down, h.script)), Command(typ, number, payload), base, mine);
  }

  lemma {:induction false} AnswerOnce(h: SessionState, typ: nibble, payload: seq<byte>, retried: bool,
                                      matches: Frame -> bool, client: Answers, base: seq<Frame>)
    requires Honest(client) && HonestEvents(h.script) && AtMostOnce(h.w, base, IsCommand(typ, payload))
    requires retried || RefusalsMean(h.w, base)
    ensures var q := Answer(h, typ, payload, retried, matches, client);
            AtMostOnce(q.host.w, base, IsCommand(typ, payload))
    decreases !retried, |h.script|, |h.w.up|, |h.w.down|
  {
    var a, mine := Read(h, client), IsCommand(typ, payload);
    AwaitedLess(h.w, h.script, client);
    AwaitedWatched(h.w, h.script, client, base, mine);
    if a.got.Some? {
      var f := a.got.value;
      if IsRefusal(f) && !retried {
        SyncHopeless(a.host, client, SYNC_TRIES, base);
        var s := Sync(a.host, client, SYNC_TRIES);
        HopelessOnce(s.host.w, base, mine);
        if s.next.Some? {
          ResentOnce(s.host, typ, s.next.value, payload, base);
          AnswerOnce(SentCommand(s.host, typ, s.next.value, payload), typ, payload, true, matches, client, base);
        }
      } else if f.hdr.error == NO_ERROR && !(f.payload != [] && matches(f)) {
        AnswerOnce(a.host, typ, payload, retried, matches, client, base);
      }
    }
  }

  /** Nothing in flight will be accepted, so neither will a query behind it. */
  lemma HopelessOnce(w: World, base: seq<Frame>, mine: Frame -> bool)
    requires Hopeless(w, base)
    ensures AtMostOnce(w, base, mine)
  {
    forall p | 0 <= p < |w.up| && IsData(w.up[p]) ensures Doomed(w, w.up[p]) {
      assert w.up[p] in w.up;
    }
  }

  /** In every run, whatever is lost, delayed, injected or reset: the device accepts the
      command at most once and nothing else, during the call and for ever after, in
      whatever events are still to come. What was in flight from earlier must not be
      mistakable (`Unambiguous`); of the frames on their way to the host those count
      that outlive the first drain. */
  lemma RequestAtMostOnce(h: SessionState, typ: nibble, payload: seq<byte>, matches: Frame -> bool, client: Answers,
                          later: seq<Event>)
    requires Honest(client) && HonestEvents(h.script) && HonestEvents(later)
    requires Unambiguous(h.w.(down := Outliving(h.w.down, h.script)), Command(typ, h.tx, payload))
    ensures var w := ApplyAll(Request(h, typ, payload, matches, client).host.w, later, client);
            && AtMostOneMore(h.w.dev.accepted, w.dev.accepted, IsCommand(typ, payload))
            && AtMostOnce(w, h.w.dev.accepted, IsCommand(typ, payload))
  {
    var s, base, mine := SentCommand(h, typ, h.tx, payload), h.w.dev.accepted, IsCommand(typ, payload);
    DrainKeeps(h.w, h.script);
    PushWatched(h.w.(down := Outliving(h.w.down, h.script)), Command(typ, h.tx, payload), mine);
    AnswerOnce(s, typ, payload, false, matches, client, base);
    var w := Request(h, typ, payload, matches, client).host.w;
    ApplyAllWatched(w, later, client, base, mine);
    OnceOutcome(ApplyAll(w, later, client), base, mine);
  }

  // ---------------------------------------------------------------- an idle link

  /** Nothing is in flight to the device and nothing will go wrong. */
  ghost predicate Idle(h: SessionState) {
    h.script == [] && h.w.up == [] && !h.w.dev.stuck
  }

  /** Waiting on a lossless, prompt link where the device has at most one frame to take. */
  lemma PromptRead(h: SessionState, client: Answers)
    requires h.script == []
    ensures h.w.down != [] ==>
              Read(h, client) == ReadOutcome(Some(h.w.down[0]),
                                         h.(w := h.w.(down := h.w.down[1..]), handed := h.handed + [h.w.down[0]]))
    ensures h.w.down == [] && h.w.up == [] ==> Read(h, client) == ReadOutcome(None, h)
    ensures h.w.down == [] && h.w.up != [] && Take(h.w, client).down != [] ==>
              var t := Take(h.w, client);
              Read(h, client) == ReadOutcome(Some(t.down[0]),
                                         h.(w := t.(down := t.down[1..]), handed := h.handed + [t.down[0]]))
  {
    assert Scripted(h.w, [], client) == Wait(None, false, h.w, []);
    var t := Take(h.w, client);
    assert t.down != [] ==> Prompted(t, client) == t;
    assert h.handed + [] == h.handed;
  }

  /** On an idle link the first query succeeds and the number reported is adopted. */
  lemma IdleSync(h: SessionState, client: Answers)
    requires Idle(h)
    ensures var s := Sync(h, client, SYNC_TRIES);
            && s.next == Some(h.w.dev.rx) && s.host.queries == h.queries + 1 && Idle(s.host)
            && s.host.w.dev == h.w.dev.(tx := Next(h.w.dev.tx)) && s.host.commands == h.commands
  {
    var q := Query(h.tx);
    var s := Sent(h, q).(queries := h.queries + 1);
    assert s.w == World([q], [], h.w.dev);
    TakeTail(s.w, client);
    assert Take(s.w, client) == World([], [InfoResponse(h.w.dev)], h.w.dev.(tx := Next(h.w.dev.tx)));
    PromptRead(s, client);
  }

  /** A client reply holding an answer the caller is waiting for. */
  ghost predicate Answered(down: seq<Frame>, matches: Frame -> bool) {
    && (forall f :: f in down ==> f.hdr.error == NO_ERROR)
    && (exists f :: f in down && f.payload != [] && matches(f))
  }

  /** A call that can read all of `down` and nothing else ends with `r`. */
  ghost predicate Heard(down: seq<Frame>, matches: Frame -> bool, r: Result) {
    exists n: nat :: n <= |down| && Verdict(down[..n], matches, r) && (r == TimedOut ==> n == |down|)
  }

  lemma HeardNow(down: seq<Frame>, matches: Frame -> bool, r: Result)
    requires down != [] && Verdict([down[0]], matches, r) && r != TimedOut
    ensures Heard(down, matches, r)
  {
    assert down[..1] == [down[0]];
  }

  lemma HeardLater(f: Frame, down: seq<Frame>, matches: Frame -> bool, r: Result)
    requires Harmless(f, matches) && Heard(down, matches, r)
    ensures Heard([f] + down, matches, r)
  {
    var n: nat :| n <= |down| && Verdict(down[..n], matches, r) && (r == TimedOut ==> n == |down|);
    assert ([f] + down)[..n + 1] == [f] + down[..n];
    VerdictLater(f, down[..n], matches, r);
  }

  /** The device has nothing left to do and only frames of clients are in flight: the
      session is not disturbed, and a client that answers is heard. */
  lemma {:induction false} IdleAnswer(h: SessionState, typ: nibble, payload: seq<byte>, retried: bool,
                                      matches: Frame -> bool, client: Answers)
    requires Idle(h) && forall f :: f in h.w.down ==> !IsRefusal(f)
    ensures var q := Answer(h, typ, payload, retried, matches, client);
            && Idle(q.host) && q.host.w.dev == h.w.dev && q.host.tx == h.tx && q.retried == retried
            && q.host.queries == h.queries && q.host.commands == h.commands
            && (Answered(h.w.down, matches) ==> q.r.Response?) && Heard(h.w.down, matches, q.r)
    decreases |h.w.down|
  {
    PromptRead(h, client);
    var r := Answer(h, typ, payload, retried, matches, client).r;
    if h.w.down != [] {
      var f, rest := h.w.down[0], h.w.down[1..];
      assert f in h.w.down && h.w.down == [f] + rest;
      if Harmless(f, matches) {
        IdleAnswer(Read(h, client).host, typ, payload, retried, matches, client);
        HeardLater(f, rest, matches, r);
      } else {
        HeardNow(h.w.down, matches, r);
      }
    } else {
      assert h.w.down[..0] == [];
    }
  }

  /** What the device makes of the command when nothing else is in flight. */
  lemma CommandTaken(d: Device, c: Frame, client: Answers)
    requires Honest(client) && !d.stuck && IsData(c) && !c.hdr.noAck && c.hdr.typ in d.wired
    ensures var t := Take(World([c], [], d), client);
            if c.hdr.number == d.rx
            then && t == World([], [Ack(c.hdr.typ, c.hdr.number, NO_ERROR, true)] + client(c),
                               d.(rx := Next(d.rx), accepted := d.accepted + [c]))
                 && (forall f :: f in client(c) ==> !IsRefusal(f))
            else t == World([], [Ack(c.hdr.typ, d.rx, INCORRECT_SEQUENCE_NUMBER, true)], d.(rx := 0))
  {
    TakeTail(World([c], [], d), client);
    forall f | f in client(c) ensures Benign(f) {
    }
  }

  /** The command is the only thing in flight and carries the expected number. */
  lemma IdleAccepted(h: SessionState, typ: nibble, number: byte, payload: seq<byte>, retried: bool,
                     matches: Frame -> bool, client: Answers)
    requires Honest(client) && h.script == [] && !h.w.dev.stuck
    requires var c := Command(typ, number, payload);
             h.w == World([c], [], h.w.dev) && IsData(c) && typ in h.w.dev.wired && number % 16 == h.w.dev.rx
    ensures var c := Command(typ, number, payload);
            var q := Answer(h, typ, payload, retried, matches, client);
            && Idle(q.host) && q.host.tx == h.tx && q.retried == retried
            && q.host.w.dev == h.w.dev.(rx := Next(h.w.dev.rx), accepted := h.w.dev.accepted + [c])
            && q.host.queries == h.queries && q.host.commands == h.commands
            && (Answered(client(c), matches) ==> q.r.Response?) && Heard(client(c), matches, q.r)
  {
    var c := Command(typ, number, payload);
    CommandTaken(h.w.dev, c, client);
    PromptRead(h, client);
    var t, a := Take(h.w, client), Read(h, client);
    assert t.down[1..] == client(c);
    IdleAnswer(a.host, typ, payload, retried, matches, client);
  }

  lemma SentAlone(h: SessionState, typ: nibble, number: byte, payload: seq<byte>)
    requires Idle(h)
    ensures var s := SentCommand(h, typ, number, payload);
            && s.w == World([Command(typ, number, payload)], [], h.w.dev) && s.script == []
            && s.tx == Next(number % 16) && s.queries == h.queries && s.commands == h.commands + 1
  {
    assert [] + [Command(typ, number, payload)] == [Command(typ, number, payload)];
  }

  /** What a request on an idle link achieves, with `c` the command as accepted. */
  ghost predicate Served(h: SessionState, typ: nibble, payload: seq<byte>, matches: Frame -> bool, client: Answers,
                         q: RequestOutcome)
  {
    var c := Command(typ, if q.retried then 0 else h.w.dev.rx, payload);
    && Idle(q.host) && q.host.tx == q.host.w.dev.rx && q.host.w.dev.wired == h.w.dev.wired
    && q.host.w.dev.accepted == h.w.dev.accepted + [c]
    && (q.retried <==> h.tx % 16 != h.w.dev.rx)
    && q.host.queries == h.queries + (if q.retried then 1 else 0)
    && q.host.commands == h.commands + (if q.retried then 2 else 1)
    && (Answered(client(c), matches) ==> q.r.Response?) && Heard(client(c), matches, q.r)
  }

  /** On an idle link, from any two counters: the device accepts the command exactly once,
      with one resynchronisation and one resend if the counters differed and none if
      not; the counters end up equal, and the first frame of the client's answers that is
      an error or a match is the result, or the call times out behind all of them. */
  lemma RequestServed(h: SessionState, typ: nibble, payload: seq<byte>, matches: Frame -> bool, client: Answers)
    requires Honest(client) && Idle(h) && typ in h.w.dev.wired
    requires typ != TYPE_PROTOCOL_INFO && 0 < |payload| <= MAX_PAYLOAD_LEN
    ensures Served(h, typ, payload, matches, client, Request(h, typ, payload, matches, client))
  {
    var s := SentCommand(h, typ, h.tx, payload);
    SentAlone(h, typ, h.tx, payload);
    if h.tx % 16 == h.w.dev.rx {
      AcceptedServed(h, s, typ, payload, matches, client);
    } else {
      RefusedServed(h, s, typ, payload, matches, client);
    }
  }

  lemma AcceptedServed(h: SessionState, s: SessionState, typ: nibble, payload: seq<byte>,
                       matches: Frame -> bool, client: Answers)
    requires Honest(client) && Idle(h) && typ in h.w.dev.wired && h.tx % 16 == h.w.dev.rx
    requires typ != TYPE_PROTOCOL_INFO && 0 < |payload| <= MAX_PAYLOAD_LEN
    requires s.w == World([Command(typ, h.tx, payload)], [], h.w.dev) && s.script == []
    requires s.tx == Next(h.w.dev.rx) && s.queries == h.queries && s.commands == h.commands + 1
    ensures Served(h, typ, payload, matches, client, Answer(s, typ, payload, false, matches, client))
  {
    SameNumber(typ, h.tx, h.w.dev.rx, payload);
    IdleAccepted(s, typ, h.w.dev.rx, payload, false, matches, client);
  }

  lemma SameNumber(typ: nibble, a: byte, n: nibble, payload: seq<byte>)
    requires a % 16 == n
    ensures Command(typ, a, payload) == Command(typ, n, payload) && n % 16 == n
  {
  }

  lemma RefusedServed(h: SessionState, s: SessionState, typ: nibble, payload: seq<byte>,
                      matches: Frame -> bool, client: Answers)
    requires Honest(client) && Idle(h) && typ in h.w.dev.wired && h.tx % 16 != h.w.dev.rx
    requires typ != TYPE_PROTOCOL_INFO && 0 < |payload| <= MAX_PAYLOAD_LEN
    requires s.w == World([Command(typ, h.tx, payload)], [], h.w.dev) && s.script == []
    requires s.queries == h.queries && s.commands == h.commands + 1
    ensures Served(h, typ, payload, matches, client, Answer(s, typ, payload, false, matches, client))
  {
    CommandTaken(h.w.dev, Command(typ, h.tx, payload), client);
    PromptRead(s, client);
    var a := Read(s, client).host;
    assert a.w == World([], [], h.w.dev.(rx := 0));
    IdleSync(a, client);
    var b := Sync(a, client, SYNC_TRIES).host;
    SentAlone(b, typ, 0, payload);
    var again := SentCommand(b, typ, 0, payload);
    IdleAccepted(again, typ, 0, payload, true, matches, client);
    assert Answer(s, typ, payload, false, matches, client) == Answer(again, typ, payload, true, matches, client);
  }

  // ---------------------------------------------------------------- many requests

  /** A command to send, and whether the device restarts before it. */
  datatype Job = Job(typ: nibble, payload: seq<byte>, resetFirst: bool)

  ghost predicate Sendable(j: Job, wired: set<nibble>) {
    j.typ in wired && j.typ != TYPE_PROTOCOL_INFO && 0 < |j.payload| <= MAX_PAYLOAD_LEN
  }

  predicate Anything(f: Frame) {
    true
  }

  /** One request of such a list. */
  method Serve(session: Session, j: Job)
    requires Honest(session.port.client) && Idle(session.Now()) && Sendable(j, session.port.w.dev.wired)
    modifies session, session.port
    ensures Idle(session.Now()) && session.txSeq == session.port.w.dev.rx
    ensures session.port.w.dev.wired == old(session.port.w.dev.wired) && session.commands <= old(session.commands) + 2
    ensures var accepted, before := session.port.w.dev.accepted, old(session.port.w.dev.accepted);
            && |accepted| == |before| + 1 && accepted[..|before|] == before
            && IsCommand(j.typ, j.payload)(accepted[|before|])
  {
    if j.resetFirst {
      session.port.w := session.port.w.(dev := Reset(session.port.w.dev));
    }
    RequestServed(session.Now(), j.typ, j.payload, Anything, session.port.client);
    var r, retried := session.Ask(j.typ, j.payload, Anything);
  }

  /** Any list of requests over a lossless, prompt link, from any two counters and
      with the device restarting anywhere in between: the device accepts exactly these
      commands, each once and in order, and the counters are equal after each. */
  method RequestAll(jobs: seq<Job>, txSeq: byte, dev: Device, client: Answers)
    returns (accepted: seq<Frame>, hostNumber: byte, deviceNumber: nibble, commands: nat)
    requires Honest(client) && !dev.stuck
    requires forall j :: j in jobs ==> Sendable(j, dev.wired)
    ensures |accepted| == |dev.accepted| + |jobs| && accepted[..|dev.accepted|] == dev.accepted
    ensures forall k :: 0 <= k < |jobs| ==>
              IsCommand(jobs[k].typ, jobs[k].payload)(accepted[|dev.accepted| + k])
    ensures jobs != [] ==> hostNumber == deviceNumber
    ensures commands <= 2 * |jobs|
  {
    var port := new Port(World([], [], dev), [], client);
    var session := new Session(port);
    session.txSeq := txSeq;
    for n := 0 to |jobs|
      invariant session.port == port && fresh(port) && fresh(session)
      invariant port.client == client && Idle(session.Now()) && port.w.dev.wired == dev.wired
      invariant |port.w.dev.accepted| == |dev.accepted| + n && port.w.dev.accepted[..|dev.accepted|] == dev.accepted
      invariant forall k :: 0 <= k < n ==>
                  IsCommand(jobs[k].typ, jobs[k].payload)(port.w.dev.accepted[|dev.accepted| + k])
      invariant n > 0 ==> session.txSeq == port.w.dev.rx
      invariant session.commands <= 2 * n
    {
      assert jobs[n] in jobs;
      ghost var before := port.w.dev.accepted;
      Serve(session, jobs[n]);
      Extends(before, port.w.dev.accepted, |dev.accepted|);
    }
    accepted, hostNumber, deviceNumber := port.w.dev.accepted, session.txSeq, port.w.dev.rx;
    commands := session.commands;
  }

  lemma Extends(before: seq<Frame>, after: seq<Frame>, n: nat)
    requires |after| == |before| + 1 && after[..|before|] == before && n <= |before|
    ensures after[..n] == before[..n] && forall k :: 0 <= k < |before| ==> after[k] == before[k]
  {
    forall k | 0 <= k < |before| ensures after[k] == before[k] {
      assert after[k] == after[..|before|][k];
    }
  }
}
