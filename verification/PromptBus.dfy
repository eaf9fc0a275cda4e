/** The C host on a lossless, prompt link: what a request achieves from any two counters,
and when it never returns. */
module PromptBus {
  import opened Wire
  import opened Protocol
  import opened Link
  import opened LinkState
  import opened HostBus

  predicate IsInfo(f: Frame) {
    f.hdr.typ == TYPE_PROTOCOL_INFO
  }

  /** A PROTOCOL_INFO answer that is true of device `d` and that the host acknowledges. */
  predicate TrueAnswer(f: Frame, d: Device) {
    IsAnswer(f) && f.payload == InfoPayload(d.mask, d.rx) && !f.hdr.noAck
  }

  ghost predicate HasInfo(frames: seq<Frame>) {
    exists f :: f in frames && IsInfo(f)
  }

  ghost predicate NoData(frames: seq<Frame>) {
    forall f :: f in frames ==> !IsData(f)
  }

  /** Nothing is going on but perhaps a PROTOCOL_INFO exchange. */
  ghost predicate Calm(w: World) {
    !w.dev.stuck && NoData(w.up) && forall f :: f in w.down ==> TrueAnswer(f, w.dev)
  }

  /** A PROTOCOL_INFO frame is under way that provokes another one. */
  ghost predicate Circulating(w: World) {
    HasInfo(w.up) || w.down != []
  }

  /** The device is `d` but for its transmit counter. */
  ghost predicate SameBut(d: Device, e: Device) {
    e == d.(tx := e.tx)
  }

  lemma PromptHandOver(h: BusState, client: Answers)
    requires h.script == []
    ensures var p := Prompted(h.w, client);
            HandOver(h, client) ==
            if p.down == [] then HandOverResult(None, h.(w := p))
            else HandOverResult(Some(p.down[0]), h.(w := HandedOver(p), handed := h.handed + [p.down[0]]))
  {
    assert Scripted(h.w, [], client) == Wait(None, false, h.w, []);
  }

  /** A frame other than a command is answered if it is a query, and dropped if not. */
  lemma TakeOther(w: World, client: Answers)
    requires w.up != [] && !IsData(w.up[0]) && !w.dev.stuck
    ensures var t := Take(w, client);
            && t.up == w.up[1..] && SameBut(w.dev, t.dev)
            && t.down == w.down + (if IsInfo(w.up[0]) then [InfoResponse(w.dev)] else [])
  {
    TakeTail(w, client);
    assert !IsInfo(w.up[0]) ==> Tail(w, client) == [];
  }

  lemma {:induction false} PromptedCalm(w: World, client: Answers)
    requires Calm(w)
    ensures var p := Prompted(w, client);
            && Calm(p) && SameBut(w.dev, p.dev)
            && (p.down != [] <==> Circulating(w))
    decreases |w.up|
  {
    if w.down == [] && w.up != [] {
      var f := w.up[0];
      assert f in w.up && forall g :: g in w.up[1..] ==> g in w.up;
      TakeOther(w, client);
      var t := Take(w, client);
      if IsInfo(f) {
        assert TrueAnswer(InfoResponse(w.dev), t.dev);
        assert t.down == [InfoResponse(w.dev)];
      } else {
        assert w.down + [] == [];
        assert HasInfo(w.up) <==> HasInfo(t.up) by {
          assert w.up == [f] + t.up;
        }
        PromptedCalm(t, client);
      }
    }
  }

  lemma HandedOverCalm(w: World)
    requires Calm(w) && w.down != []
    ensures Calm(HandedOver(w)) && Circulating(HandedOver(w)) && HandedOver(w).dev == w.dev
  {
    var f, t := w.down[0], HandedOver(w);
    assert f in w.down;
    var ack := Ack(f.hdr.typ, f.hdr.number, NO_ERROR, false);
    assert AutoAck(f) == [ack] && ack in t.up;
    forall g | g in t.up ensures !IsData(g) {
      assert g in w.up || g == ack;
    }
  }

  lemma PushCalm(w: World, f: Frame)
    requires Calm(w) && IsInfo(f) && !IsData(f)
    ensures Calm(w.(up := w.up + [f])) && Circulating(w.(up := w.up + [f]))
  {
    assert f in w.up + [f];
  }

  /** `bus_sync` on a calm link: the first query succeeds, counter and mask are the
      device's, and an exchange of PROTOCOL_INFO frames is left behind. */
  lemma PromptSync(h: BusState, client: Answers)
    requires h.script == [] && Calm(h.w)
    ensures var s := Sync(h, client, SYNC_RETRIES);
            && s.r == Zero && s.host.tx == h.w.dev.rx && s.host.mask == h.w.dev.mask
            && s.host.queries == h.queries + 1 && s.host.script == []
            && Calm(s.host.w) && Circulating(s.host.w) && SameBut(h.w.dev, s.host.w.dev)
  {
    var q := Queried(h);
    PushCalm(h.w, Query(h.tx));
    PromptHandOver(q, client);
    PromptedCalm(q.w, client);
    var p := Prompted(q.w, client);
    HandedOverCalm(p);
    assert p.down[0] in p.down;
    assert SyncAttempt(h, client).done;
  }

  /** On a calm link a requester waits in vain: for ever if an exchange is under way, and
      until its timeout if not. */
  lemma {:induction false} WaitCalm(h: BusState, typ: nibble, client: Answers, frames: nat)
    requires h.script == [] && Calm(h.w) && typ != TYPE_PROTOCOL_INFO
    ensures var q := AwaitResponse(h, typ, client, frames);
            && q.r == (if Circulating(h.w) || frames == 0 then StillWaiting else TimedOut)
            && Calm(q.host.w) && SameBut(h.w.dev, q.host.w.dev)
            && q.host.tx == h.tx && q.host.queries == h.queries && !q.resynced
    decreases frames
  {
    if frames > 0 {
      PromptHandOver(h, client);
      PromptedCalm(h.w, client);
      var p := Prompted(h.w, client);
      if p.down != [] {
        HandedOverCalm(p);
        assert p.down[0] in p.down;
        WaitCalm(HandOver(h, client).host, typ, client, frames - 1);
      }
    }
  }

  // ---------------------------------------------------------------- after the command was taken

  /** The payload of the first response among `frames`. */
  function FirstOf(frames: seq<Frame>, typ: nibble): Option<seq<byte>> {
    if frames == [] then None
    else if IsResponse(frames[0], typ) then Some(frames[0].payload)
    else FirstOf(frames[1..], typ)
  }

  /** The device has dealt with the command; frames of its clients wait for the host. */
  ghost predicate Answering(w: World) {
    !w.dev.stuck && NoData(w.up) && forall f :: f in w.down ==> Benign(f)
  }

  lemma HandedOverAnswering(w: World)
    requires Answering(w) && w.down != []
    ensures Answering(HandedOver(w)) && (HasInfo(HandedOver(w).up) <==> HasInfo(w.up)) && !IsRefusal(w.down[0])
  {
    var f, t := w.down[0], HandedOver(w);
    assert f in w.down;
    forall g | g in t.up && g !in w.up ensures !IsData(g) && !IsInfo(g) {
      assert g in AutoAck(f);
    }
    forall g | g in w.up ensures g in t.up {
    }
  }

  /** The first response among what the clients sent is returned; without one the
      requester is back on a calm link. */
  lemma {:induction false} WaitAnswering(h: BusState, typ: nibble, client: Answers, frames: nat)
    requires h.script == [] && Answering(h.w) && typ != TYPE_PROTOCOL_INFO && frames > |h.w.down|
    ensures var q := AwaitResponse(h, typ, client, frames);
            && (match FirstOf(h.w.down, typ)
                case Some(p) => q.r == Zero && q.response == p
                case None => q.r == if HasInfo(h.w.up) then StillWaiting else TimedOut)
            && SameBut(h.w.dev, q.host.w.dev)
            && q.host.tx == h.tx && q.host.queries == h.queries && !q.resynced
    decreases frames
  {
    if h.w.down == [] {
      WaitCalm(h, typ, client, frames);
    } else {
      PromptHandOver(h, client);
      HandedOverAnswering(h.w);
      if !IsResponse(h.w.down[0], typ) {
        WaitAnswering(HandOver(h, client).host, typ, client, frames - 1);
      }
    }
  }

  // ---------------------------------------------------------------- before the command is taken

  /** The command `c` is on its way behind `k` other frames, and nothing else is. */
  ghost predicate OnItsWay(w: World, c: Frame, k: nat) {
    && k < |w.up| && w.up[k] == c && NoData(w.up[..k]) && NoData(w.up[k + 1..])
    && IsData(c) && !c.hdr.noAck && c.hdr.typ in w.dev.wired && !w.dev.stuck
    && (forall f :: f in w.down ==> TrueAnswer(f, w.dev))
  }

  lemma OnItsWayNext(w: World, c: Frame, k: nat, client: Answers)
    requires OnItsWay(w, c, k) && k > 0
    ensures var t := Take(w, client);
            && OnItsWay(t, c, k - 1) && SameBut(w.dev, t.dev) && |t.down| <= |w.down| + 1
            && (Circulating(t) <==> Circulating(w))
  {
    assert w.up[0] in w.up[..k];
    TakeOther(w, client);
    var t := Take(w, client);
    assert w.up == [w.up[0]] + t.up && w.down + [] == w.down;
    assert t.up[..k - 1] == w.up[1..k] && t.up[k..] == w.up[k + 1..];
    forall g | g in t.up[..k - 1] ensures !IsData(g) {
      assert g in w.up[..k];
    }
    assert TrueAnswer(InfoResponse(w.dev), t.dev);
  }

  /** The device runs until there is something to read: answers to queries ahead of the
      command, or else what it has to say to the command. In the second case `v` is
      the link just before. */
  lemma {:induction false} PromptedOnItsWay(w: World, c: Frame, k: nat, client: Answers)
    returns (taken: bool, k': nat, v: World)
    requires OnItsWay(w, c, k)
    ensures var p := Prompted(w, client);
            && (!taken ==> v == p && OnItsWay(p, c, k') && p.down != [] && k' + |p.down| <= k + |w.down|)
            && (taken ==> OnItsWay(v, c, 0) && v.down == [] && p == Take(v, client) && p.down != [])
            && SameBut(w.dev, v.dev) && (Circulating(v) <==> Circulating(w))
    decreases k
  {
    if w.down != [] {
      taken, k', v := false, k, w;
    } else if k == 0 {
      taken, k', v := true, 0, w;
      TakeTail(w, client);
    } else {
      OnItsWayNext(w, c, k, client);
      taken, k', v := PromptedOnItsWay(Take(w, client), c, k - 1, client);
    }
  }

  lemma HandedOverOnItsWay(w: World, c: Frame, k: nat)
    requires OnItsWay(w, c, k) && w.down != []
    ensures OnItsWay(HandedOver(w), c, k) && TrueAnswer(w.down[0], w.dev) && HandedOver(w).dev == w.dev
  {
    var f, t := w.down[0], HandedOver(w);
    assert f in w.down;
    assert t.up[..k] == w.up[..k] && t.up[k + 1..] == w.up[k + 1..] + AutoAck(f);
  }

  /** What the device says to the command. */
  lemma CommandTaken(v: World, c: Frame, client: Answers)
    requires OnItsWay(v, c, 0) && v.down == [] && Honest(client)
    ensures var t := Take(v, client);
            && NoData(t.up) && (HasInfo(t.up) <==> HasInfo(v.up)) && t.dev.wired == v.dev.wired && !t.dev.stuck
            && (if c.hdr.number == v.dev.rx
                then && t.down == [Ack(c.hdr.typ, c.hdr.number, NO_ERROR, true)] + client(c)
                     && t.dev == v.dev.(rx := Next(v.dev.rx), accepted := v.dev.accepted + [c])
                     && (forall f :: f in client(c) ==> Benign(f))
                else && t.down == [Ack(c.hdr.typ, v.dev.rx, INCORRECT_SEQUENCE_NUMBER, true)]
                     && t.dev == v.dev.(rx := 0))
  {
    var t := Take(v, client);
    TakeTail(v, client);
    assert t.up == v.up[0 + 1..] && v.up == [c] + t.up;
  }

  /** What a request with command `c` from device `d` ends in. */
  ghost predicate Answered(d: Device, c: Frame, tx: byte, queries: nat, circulating: bool, q: RequestResult,
                           client: Answers)
  {
    if c.hdr.number == d.rx then
      && (match FirstOf(client(c), c.hdr.typ)
          case Some(p) => q.r == Zero && q.response == p
          case None => q.r == if circulating then StillWaiting else TimedOut)
      && SameBut(d.(rx := Next(d.rx), accepted := d.accepted + [c]), q.host.w.dev)
      && q.host.tx == tx && q.host.queries == queries && !q.resynced
    else
      && q.r == TimedOut && q.resynced && SameBut(d.(rx := 0), q.host.w.dev)
      && q.host.tx == 0 && q.host.mask == d.mask && q.host.queries == queries + 1
      && q.host.script == [] && Calm(q.host.w) && Circulating(q.host.w)
  }

  lemma WaitTaken(h: BusState, c: Frame, v: World, client: Answers, frames: nat)
    requires h.script == [] && OnItsWay(v, c, 0) && v.down == [] && Honest(client)
    requires Prompted(h.w, client) == Take(v, client) && Take(v, client).down != []
    requires frames > |client(c)| + 1
    ensures Answered(v.dev, c, h.tx, h.queries, HasInfo(v.up), AwaitResponse(h, c.hdr.typ, client, frames), client)
  {
    CommandTaken(v, c, client);
    PromptHandOver(h, client);
    var t, n := Take(v, client), HandOver(h, client);
    assert t.up + [] == t.up;
    if c.hdr.number == v.dev.rx {
      assert t.down[1..] == client(c) && n.host.w == World(t.up, client(c), t.dev);
      WaitAnswering(n.host, c.hdr.typ, client, frames - 1);
    } else {
      assert n.host.w == World(t.up, [], t.dev);
      PromptSync(n.host, client);
    }
  }

  /** Circulation as seen while the command is under way. */
  lemma HandedOverKeepsInfo(w: World, c: Frame, k: nat)
    requires OnItsWay(w, c, k) && w.down != []
    ensures HasInfo(HandedOver(w).up)
  {
    HandedOverOnItsWay(w, c, k);
    var f := w.down[0];
    var ack := Ack(f.hdr.typ, f.hdr.number, NO_ERROR, false);
    assert AutoAck(f) == [ack] && ack in HandedOver(w).up && IsInfo(ack);
  }

  lemma AnsweredSame(d: Device, e: Device, c: Frame, tx: byte, queries: nat, circulating: bool, q: RequestResult,
                     client: Answers)
    requires SameBut(d, e) && Answered(e, c, tx, queries, circulating, q, client)
    ensures Answered(d, c, tx, queries, circulating, q, client)
  {
  }

  /** An answer from ahead of the command is handed over and waited past. */
  lemma AnswerHanded(h: BusState, c: Frame, k: nat, v: World, client: Answers, frames: nat) returns (n: BusState)
    requires h.script == [] && v == Prompted(h.w, client) && OnItsWay(v, c, k) && v.down != [] && frames > 0
    ensures n.script == [] && OnItsWay(n.w, c, k) && Circulating(n.w) && |n.w.down| == |v.down| - 1
    ensures n.w.dev == v.dev && n.tx == h.tx && n.queries == h.queries
    ensures AwaitResponse(h, c.hdr.typ, client, frames) == AwaitResponse(n, c.hdr.typ, client, frames - 1)
  {
    PromptHandOver(h, client);
    HandedOverOnItsWay(v, c, k);
    HandedOverKeepsInfo(v, c, k);
    n := HandOver(h, client).host;
  }

  /** Waiting goes on until the device has taken the command: `n` is the host then, and `v`
      the link just before. */
  lemma {:induction false} UntilTaken(h: BusState, c: Frame, k: nat, client: Answers, frames: nat)
    returns (n: BusState, v: World, left: nat)
    requires h.script == [] && OnItsWay(h.w, c, k) && frames > k + |h.w.down| + |client(c)| + 1
    ensures n.script == [] && n.tx == h.tx && n.queries == h.queries && left > |client(c)| + 1
    ensures OnItsWay(v, c, 0) && v.down == [] && Prompted(n.w, client) == Take(v, client) && Take(v, client).down != []
    ensures SameBut(h.w.dev, v.dev) && (Circulating(v) <==> Circulating(h.w))
    ensures AwaitResponse(h, c.hdr.typ, client, frames) == AwaitResponse(n, c.hdr.typ, client, left)
    decreases frames
  {
    var taken, k', m;
    taken, k', m, v := NextHanded(h, c, k, client, frames);
    if taken {
      n, left := h, frames;
    } else {
      n, v, left := UntilTaken(m, c, k', client, frames - 1);
    }
  }

  /** Either the device takes the command next, or the host is handed one more answer. */
  lemma NextHanded(h: BusState, c: Frame, k: nat, client: Answers, frames: nat)
    returns (taken: bool, k': nat, m: BusState, v: World)
    requires h.script == [] && OnItsWay(h.w, c, k) && frames > 0
    ensures taken ==>
              && OnItsWay(v, c, 0) && v.down == [] && Prompted(h.w, client) == Take(v, client)
              && Take(v, client).down != [] && SameBut(h.w.dev, v.dev) && (Circulating(v) <==> Circulating(h.w))
    ensures !taken ==>
              && m.script == [] && m.tx == h.tx && m.queries == h.queries && OnItsWay(m.w, c, k')
              && k' + |m.w.down| < k + |h.w.down| && SameBut(h.w.dev, m.w.dev)
              && Circulating(m.w) && Circulating(h.w)
              && AwaitResponse(h, c.hdr.typ, client, frames) == AwaitResponse(m, c.hdr.typ, client, frames - 1)
  {
    taken, k', v := PromptedOnItsWay(h.w, c, k, client);
    m := h;
    if !taken {
      m := AnswerHanded(h, c, k', v, client, frames);
    }
  }

  lemma WaitOnItsWay(h: BusState, c: Frame, k: nat, client: Answers, frames: nat)
    requires h.script == [] && OnItsWay(h.w, c, k) && Honest(client)
    requires frames > k + |h.w.down| + |client(c)| + 1
    ensures Answered(h.w.dev, c, h.tx, h.queries, Circulating(h.w),
                     AwaitResponse(h, c.hdr.typ, client, frames), client)
  {
    var n, v, left := UntilTaken(h, c, k, client, frames);
    WaitTaken(n, c, v, client, left);
    AnsweredSame(h.w.dev, v.dev, c, h.tx, h.queries, HasInfo(v.up), AwaitResponse(n, c.hdr.typ, client, left), client);
  }

  // ---------------------------------------------------------------- requests

  /** Watched long enough for everything under way to arrive. */
  ghost predicate LongEnough(frames: nat, h: BusState, c: Frame, client: Answers) {
    frames > |h.w.up| + |h.w.down| + |client(c)| + 1
  }

  ghost predicate Valid(h: BusState, typ: nibble, payload: seq<byte>) {
    typ in h.w.dev.wired && typ != TYPE_PROTOCOL_INFO && 0 < |payload| <= MAX_PAYLOAD_LEN
  }

  lemma SentOnItsWay(h: BusState, typ: nibble, payload: seq<byte>)
    requires Calm(h.w) && Valid(h, typ, payload)
    ensures OnItsWay(Sent(h, typ, payload).w, Outgoing(typ, h.tx, payload), |h.w.up|)
    ensures Circulating(Sent(h, typ, payload).w) <==> Circulating(h.w)
  {
    var c, up := Outgoing(typ, h.tx, payload), Sent(h, typ, payload).w.up;
    assert up[..|h.w.up|] == h.w.up && up[|h.w.up| + 1..] == [];
    forall f | f in up && IsInfo(f) ensures f in h.w.up {
      assert f in h.w.up || f == c;
    }
    forall f | f in h.w.up ensures f in up {
    }
  }

  /** A request on a calm link, from any two counters.

      Counters equal: the device accepts the command at once. The first response among
      its client's answers is returned; without one the request times out, unless a
      PROTOCOL_INFO exchange is under way, which keeps it waiting for ever since every
      frame starts the timeout anew.

      Counters different: one refusal, one query, and a timeout; both counters are 0, the
      link is calm again, and a PROTOCOL_INFO exchange is under way. */
  lemma PromptRequest(h: BusState, typ: nibble, payload: seq<byte>, client: Answers, frames: nat)
    requires Honest(client) && h.script == [] && Calm(h.w) && Valid(h, typ, payload)
    requires LongEnough(frames, h, Outgoing(typ, h.tx, payload), client)
    ensures Answered(h.w.dev, Outgoing(typ, h.tx, payload), NextTx(h.tx), h.queries, Circulating(h.w),
                     Request(h, typ, payload, client, frames), client)
    ensures h.tx % 16 == h.w.dev.rx ==>
              var accepted := Request(h, typ, payload, client, frames).host.w.dev.accepted;
              && |accepted| == |h.w.dev.accepted| + 1 && h.w.dev.accepted <= accepted
              && Carries(accepted[|h.w.dev.accepted|], typ, h.w.dev.rx, payload)
  {
    SentOnItsWay(h, typ, payload);
    WaitOnItsWay(Sent(h, typ, payload).(requests := h.requests + 1), Outgoing(typ, h.tx, payload), |h.w.up|,
                 client, frames);
  }

  /** The request after a refused one is accepted at once. */
  lemma RefusedThenAccepted(h: BusState, typ: nibble, payload: seq<byte>, typ': nibble, payload': seq<byte>,
                            client: Answers, frames: nat, frames': nat)
    requires Honest(client) && h.script == [] && Calm(h.w) && Valid(h, typ, payload) && Valid(h, typ', payload')
    requires h.tx % 16 != h.w.dev.rx
    requires LongEnough(frames, h, Outgoing(typ, h.tx, payload), client)
    ensures var first := Request(h, typ, payload, client, frames);
            var c := Outgoing(typ', 0, payload');
            && first.r == TimedOut && first.resynced
            && (LongEnough(frames', first.host, c, client) ==>
                  var q := Request(first.host, typ', payload', client, frames');
                  && q.host.w.dev.accepted == h.w.dev.accepted + [c] && Carries(c, typ', 0, payload')
                  && q.host.tx == q.host.w.dev.rx == 1
                  && q.r == if FirstOf(client(c), typ').Some? then Zero else StillWaiting)
  {
    PromptRequest(h, typ, payload, client, frames);
    var first := Request(h, typ, payload, client, frames);
    if LongEnough(frames', first.host, Outgoing(typ', 0, payload'), client) {
      PromptRequest(first.host, typ', payload', client, frames');
    }
  }

  /** A request that its client does not answer returns if and only if no PROTOCOL_INFO
      exchange is under way. `bus_sync` leaves one behind, so after it this never
      happens (`PromptSync`). */
  lemma ReturnsIffQuiet(h: BusState, typ: nibble, payload: seq<byte>, client: Answers)
    requires Honest(client) && h.script == [] && Calm(h.w) && Valid(h, typ, payload) && h.tx % 16 == h.w.dev.rx
    requires FirstOf(client(Outgoing(typ, h.tx, payload)), typ) == None
    ensures (exists frames: nat :: Request(h, typ, payload, client, frames).r != StillWaiting) <==> !Circulating(h.w)
  {
    var c := Outgoing(typ, h.tx, payload);
    if Circulating(h.w) {
      forall frames: nat ensures Request(h, typ, payload, client, frames).r == StillWaiting {
        var more := frames + |h.w.up| + |h.w.down| + |client(c)| + 2;
        PromptRequest(h, typ, payload, client, more);
        WatchLonger(Sent(h, typ, payload).(requests := h.requests + 1), typ, client, frames, more);
      }
    } else {
      var frames := |h.w.up| + |h.w.down| + |client(c)| + 2;
      PromptRequest(h, typ, payload, client, frames);
      assert Request(h, typ, payload, client, frames).r == TimedOut;
    }
  }

  /** Watching longer changes nothing once a request has returned. */
  lemma {:induction false} WatchLonger(h: BusState, typ: nibble, client: Answers, frames: nat, more: nat)
    requires frames <= more
    ensures var q := AwaitResponse(h, typ, client, frames);
            q.r != StillWaiting ==> AwaitResponse(h, typ, client, more) == q
    decreases frames
  {
    if frames > 0 && HandOver(h, client).got.Some? {
      WatchLonger(HandOver(h, client).host, typ, client, frames - 1, more - 1);
    }
  }
}
