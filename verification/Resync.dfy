/** When the C host's resynchronisation is not to be trusted: for every link on which
`LinkState.Resyncable` fails there is a run in which `bus_request` resynchronises
successfully and host and device still disagree. */
module Resync {
  import opened Wire
  import opened Protocol
  import opened Link
  import opened Runs
  import opened LinkState
  import opened HostBus

  // ---------------------------------------------------------------- scripted requests

  /** The host reads what is there after `events`. */
  lemma HandOverAfter(h: BusState, events: seq<Event>, rest: seq<Event>, w': World, client: Answers)
    requires h.script == events + [HostReads] + rest && Reach(h.w, events, w', client) && w'.down != []
    ensures HandOver(h, client) ==
            HandOverResult(Some(w'.down[0]),
                    h.(w := HandedOver(w'), script := rest, handed := h.handed + [w'.down[0]]))
  {
    var tail := [HostReads] + rest;
    assert h.script == events + tail && tail[1..] == rest;
    ScriptedSkips(h.w, events, tail, client);
  }

  /** A request whose host reads a refusal after `first`, sends its query, and reads an
      answer after `second`: it adopts what the answer tells. */
  lemma ScriptedResync(h: BusState, typ: nibble, client: Answers, first: seq<Event>, w1: World,
                       second: seq<Event>, w2: World)
    requires Reach(h.w, first, w1, client) && w1.down != [] && Refuses(w1.down[0])
    requires Reach(World(w1.up + [Query(h.tx)], w1.down[1..], w1.dev), second, w2, client)
    requires w2.down != [] && IsAnswer(w2.down[0]) && w2.down[0].payload[0] == PROTOCOL_VERSION
    ensures var script := first + [HostReads] + (second + [HostReads] + []);
            var q := AwaitResponse(h.(script := script), typ, client, 1);
            HonestEvents(script) && q.resynced && q.host.tx == w2.down[0].payload[3] && q.host.w.dev == w2.dev
  {
    var rest := second + [HostReads] + [];
    HonestReads(first, second);
    var s := h.(script := first + [HostReads] + rest);
    HandOverAfter(s, first, rest, w1, client);
    assert w1.up + [] == w1.up;
    SyncReads(HandOver(s, client).host, client, second, w2);
    RefusedWait(s, typ, client);
  }

  lemma HonestReads(first: seq<Event>, second: seq<Event>)
    requires Quiet(first) && Quiet(second)
    ensures HonestEvents(first + [HostReads] + (second + [HostReads] + []))
  {
  }

  /** A request that is handed a refusal first. */
  lemma RefusedWait(h: BusState, typ: nibble, client: Answers)
    requires HandOver(h, client).got.Some? && Refuses(HandOver(h, client).got.value)
    ensures var s := Sync(HandOver(h, client).host, client, SYNC_RETRIES);
            AwaitResponse(h, typ, client, 1) == RequestResult(TimedOut, [], s.r == Zero, s.host)
  {
  }

  /** `bus_sync` whose first query is answered after `second`. */
  lemma SyncReads(n: BusState, client: Answers, second: seq<Event>, w: World)
    requires n.script == second + [HostReads] + [] && Reach(n.w.(up := n.w.up + [Query(n.tx)]), second, w, client)
    requires w.down != [] && IsAnswer(w.down[0]) && w.down[0].payload[0] == PROTOCOL_VERSION
    ensures var s := Sync(n, client, SYNC_RETRIES);
            s.r == Zero && s.host.tx == w.down[0].payload[3] && s.host.w.dev == w.dev
  {
    HandOverAfter(Queried(n), second, [], w, client);
    SyncUnfold(n, client, SYNC_RETRIES, SyncAttempt(n, client));
  }

  // ---------------------------------------------------------------- runs that go wrong

  /** An answer telling a number other than 0 can be overtaken by a restart. */
  lemma RestartBehindAnswer(w: World, q: Frame, client: Answers) returns (events: seq<Event>, w': World)
    requires w.up != [] && w.up[|w.up| - 1] == q && q.hdr.typ == TYPE_PROTOCOL_INFO
    requires !w.dev.stuck && w.dev.rx != 0
    ensures Reach(w, events, w', client)
    ensures w'.down != [] && w'.down[0] == InfoResponse(w.dev) && w'.dev.rx == 0
  {
    var n := |w.up| - 1;
    var a := LoseOldest(w, n, client);
    var w1 := w.(up := w.up[n..]);
    var b := LoseNextDown(w1, |w.down|, client);
    var w2 := World([q], [], w.dev);
    assert w1.(down := w1.down[|w.down|..]) == w2;
    Then(w, a, w1, b, w2, client);
    One(w2, DeviceTakes, client);
    var w3 := Take(w2, client);
    assert w3.down == [InfoResponse(w.dev)];
    Then(w, a + b, w2, [DeviceTakes], w3, client);
    One(w3, DeviceReset, client);
    w' := Apply(w3, DeviceReset, client);
    Then(w, a + b + [DeviceTakes], w3, [DeviceReset], w', client);
    events := a + b + [DeviceTakes] + [DeviceReset];
  }

  /** A refusal is in flight and the device expects something else than 0, or can be
      brought to: it accepts a command numbered 0. */
  lemma RefusalThenAdvance(h: BusState, typ: nibble, client: Answers, first: seq<Event>, w: World, i: nat)
    returns (run: seq<Event>)
    requires Reach(h.w, first, w, client) && i < |w.down| && Refuses(w.down[i]) && AllWired(w)
    requires w.dev.rx != 0 || exists q :: 0 <= q < |w.up| && CarriesZero(w.up[q])
    ensures HonestEvents(run)
    ensures var r := AwaitResponse(h.(script := run), typ, client, 1);
            r.resynced && r.host.tx != r.host.w.dev.rx
  {
    var a := LoseNextDown(w, i, client);
    var w1 := w.(down := w.down[i..]);
    Then(h.w, first, w, a, w1, client);
    var v := World(w1.up + [Query(h.tx)], w1.down[1..], w1.dev);
    var b, v1 := [], v;
    if w.dev.rx == 0 {
      var q :| 0 <= q < |w.up| && CarriesZero(w.up[q]);
      b, v1 := AcceptZero(v, q, client);
    }
    var c, v2 := RestartBehindAnswer(v1, Query(h.tx), client);
    Then(v, b, v1, c, v2, client);
    ScriptedResync(h, typ, client, first + a, w1, b + c, v2);
    run := first + a + [HostReads] + (b + c + [HostReads] + []);
  }

  lemma AcceptZero(w: World, q: nat, client: Answers) returns (events: seq<Event>, w': World)
    requires q < |w.up| - 1 && CarriesZero(w.up[q]) && w.up[q].hdr.typ in w.dev.wired && w.dev.rx == 0 && !w.dev.stuck
    ensures Reach(w, events, w', client)
    ensures w'.up == w.up[q + 1..] && w'.dev.rx == 1 && !w'.dev.stuck
  {
    var a := LoseOldest(w, q, client);
    var w1 := w.(up := w.up[q..]);
    assert w1.up[0] == w.up[q] && w1.up[1..] == w.up[q + 1..];
    One(w1, DeviceTakes, client);
    w' := Take(w1, client);
    Then(w, a, w1, [DeviceTakes], w', client);
    events := a + [DeviceTakes];
  }

  /** An answer behind the refusal tells something else than the 0 the device expects. */
  lemma StaleAnswer(h: BusState, typ: nibble, client: Answers, i: nat, j: nat) returns (run: seq<Event>)
    requires i < j < |h.w.down| && Refuses(h.w.down[i]) && !Tells(h.w.down[j], 0) && h.w.dev.rx == 0
    ensures HonestEvents(run)
    ensures var r := AwaitResponse(h.(script := run), typ, client, 1);
            r.resynced && r.host.tx != r.host.w.dev.rx
  {
    var a := LoseNextDown(h.w, i, client);
    var w1 := h.w.(down := h.w.down[i..]);
    var v := World(w1.up + [Query(h.tx)], w1.down[1..], w1.dev);
    assert v.down == h.w.down[i + 1..];
    var b := LoseNextDown(v, j - i - 1, client);
    var v1 := v.(down := v.down[j - i - 1..]);
    assert v1.down[0] == h.w.down[j];
    ScriptedResync(h, typ, client, a, w1, b, v1);
    run := a + [HostReads] + (b + [HostReads] + []);
  }

  /** The command at `p` is brought to the front and refused. */
  lemma RefuseAt(w: World, p: nat, client: Answers) returns (events: seq<Event>, w': World)
    requires AllWired(w) && p < |w.up| && IsData(w.up[p]) && (w.up[p].hdr.number != w.dev.rx || w.dev.rx != 0)
    ensures Reach(w, events, w', client)
    ensures w'.up == w.up[p + 1..] && w'.dev.rx == 0 && AllWired(w')
    ensures |w'.down| > |w.down| && Refuses(w'.down[|w.down|])
  {
    events := LoseOldest(w, p, client);
    w' := w.(up := w.up[p..]);
    var f := w.up[p];
    assert f in w.up && w'.up[0] == f;
    if f.hdr.number == w.dev.rx {
      One(w', DeviceReset, client);
      Then(w, events, w', [DeviceReset], Apply(w', DeviceReset, client), client);
      events, w' := events + [DeviceReset], Apply(w', DeviceReset, client);
    }
    One(w', DeviceTakes, client);
    var t := Take(w', client);
    assert t.up == w'.up[1..] == w.up[p + 1..];
    assert t.down == w.down + [Ack(f.hdr.typ, w'.dev.rx, INCORRECT_SEQUENCE_NUMBER, true)];
    assert forall g :: g in t.up ==> g in w.up;
    Then(w, events, w', [DeviceTakes], t, client);
    events, w' := events + [DeviceTakes], t;
  }

  /** The first of two commands numbered 0 is accepted, so that the second is refused. */
  lemma AcceptThenRefuse(w: World, o: nat, p: nat, client: Answers) returns (events: seq<Event>, w': World)
    requires AllWired(w) && o < p < |w.up| && w.dev.rx == 0 && CarriesZero(w.up[o]) && CarriesZero(w.up[p])
    ensures Reach(w, events, w', client)
    ensures w'.up == w.up[p + 1..] && w'.dev.rx == 0 && AllWired(w')
    ensures exists i :: 0 <= i < |w'.down| && Refuses(w'.down[i])
  {
    assert w.up[o] in w.up;
    var a, w1 := AcceptZero(w, o, client);
    assert w1.up[p - o - 1] == w.up[p] && forall f :: f in w1.up ==> f in w.up;
    assert w1.dev.wired == w.dev.wired by {
      WiredKept(w, a, client);
    }
    var b;
    b, w' := RefuseAt(w1, p - o - 1, client);
    assert w'.up == w.up[p + 1..];
    Then(w, a, w1, b, w', client);
    events := a + b;
  }

  /** A command that may be refused is followed by one numbered 0: the first is refused, and
      the second is still in flight. */
  lemma Provoke(w: World, p: nat, q: nat, client: Answers) returns (events: seq<Event>, w': World, i: nat)
    requires AllWired(w) && p < q < |w.up| && IsData(w.up[p]) && CarriesZero(w.up[q]) && !Unrefusable(w, p)
    ensures Reach(w, events, w', client) && AllWired(w')
    ensures i < |w'.down| && Refuses(w'.down[i]) && exists k :: 0 <= k < |w'.up| && CarriesZero(w'.up[k])
  {
    var from := p;
    if w.up[p].hdr.number != 0 || w.dev.rx != 0 {
      events, w' := RefuseAt(w, p, client);
      i := |w.down|;
    } else {
      var o :| 0 <= o < p && IsData(w.up[o]);
      if w.up[o].hdr.number != 0 {
        events, w' := RefuseAt(w, o, client);
        i, from := |w.down|, o;
      } else {
        events, w' := AcceptThenRefuse(w, o, p, client);
        i :| 0 <= i < |w'.down| && Refuses(w'.down[i]);
      }
    }
    assert w'.up == w.up[from + 1..] && w'.up[q - from - 1] == w.up[q];
  }

  lemma PairGoesWrong(h: BusState, typ: nibble, client: Answers, p: nat, q: nat) returns (run: seq<Event>)
    requires AllWired(h.w) && p < q < |h.w.up| && IsData(h.w.up[p]) && CarriesZero(h.w.up[q])
    requires !Unrefusable(h.w, p)
    ensures HonestEvents(run)
    ensures var r := AwaitResponse(h.(script := run), typ, client, 1);
            r.resynced && r.host.tx != r.host.w.dev.rx
  {
    var events, w', i := Provoke(h.w, p, q, client);
    run := RefusalThenAdvance(h, typ, client, events, w', i);
  }

  lemma NotResyncableGoesWrong(h: BusState, typ: nibble, client: Answers) returns (run: seq<Event>)
    requires AllWired(h.w) && !Resyncable(h.w)
    ensures HonestEvents(run)
    ensures var r := AwaitResponse(h.(script := run), typ, client, 1);
            r.resynced && r.host.tx != r.host.w.dev.rx
  {
    var w := h.w;
    if i :| 0 <= i < |w.down| && Refuses(w.down[i]) && !ClearedAt(w, i) {
      if Restarted(w) {
        var j :| i < j < |w.down| && !Tells(w.down[j], 0);
        run := StaleAnswer(h, typ, client, i, j);
      } else {
        if w.dev.rx == 0 {
          var f :| f in w.up && CarriesZero(f);
          var q :| 0 <= q < |w.up| && w.up[q] == f;
        }
        run := RefusalThenAdvance(h, typ, client, [], w, i);
      }
    } else {
      var p, q :| 0 <= p < q < |w.up| && IsData(w.up[p]) && CarriesZero(w.up[q]) && !Unrefusable(w, p);
      run := PairGoesWrong(h, typ, client, p, q);
    }
  }

  ghost predicate Meets(q: RequestResult) {
    q.resynced ==> q.host.tx == q.host.w.dev.rx
  }

  /** In every honest run a resynchronised request leaves the two counters equal. */
  ghost predicate AlwaysMeets(h: BusState, typ: nibble, payload: seq<byte>, client: Answers) {
    forall script, frames :: HonestEvents(script) ==> Meets(Request(h.(script := script), typ, payload, client, frames))
  }

  lemma RequestWaits(h: BusState, typ: nibble, payload: seq<byte>, client: Answers, script: seq<Event>, frames: nat)
    ensures Request(h.(script := script), typ, payload, client, frames) ==
            AwaitResponse(Sent(h, typ, payload).(requests := h.requests + 1, script := script), typ, client, frames)
  {
  }

  lemma ResyncableMeets(h: BusState, typ: nibble, payload: seq<byte>, client: Answers)
    requires Honest(client) && Resyncable(Sent(h, typ, payload).w)
    ensures AlwaysMeets(h, typ, payload, client)
  {
    forall script, frames | HonestEvents(script)
      ensures Meets(Request(h.(script := script), typ, payload, client, frames))
    {
      var s := h.(script := script);
      assert Sent(s, typ, payload).w == Sent(h, typ, payload).w;
      ResyncedInStep(s, typ, payload, client, frames);
    }
  }

  /** The exact condition, checkable from what is in flight when the request is sent. */
  lemma MeetsIffResyncable(h: BusState, typ: nibble, payload: seq<byte>, client: Answers)
    requires Honest(client) && AllWired(Sent(h, typ, payload).w)
    ensures AlwaysMeets(h, typ, payload, client) <==> Resyncable(Sent(h, typ, payload).w)
  {
    if Resyncable(Sent(h, typ, payload).w) {
      ResyncableMeets(h, typ, payload, client);
    } else {
      var s := Sent(h, typ, payload).(requests := h.requests + 1);
      var script := NotResyncableGoesWrong(s, typ, client);
      RequestWaits(h, typ, payload, client, script, 1);
      assert !Meets(Request(h.(script := script), typ, payload, client, 1));
    }
  }

  lemma RefusedTaken(w: World, client: Answers)
    requires w.up != [] && !w.dev.stuck && IsData(w.up[0]) && w.up[0].hdr.typ in w.dev.wired
    requires w.up[0].hdr.number != w.dev.rx
    ensures Take(w, client) ==
            World(w.up[1..], w.down + [Ack(w.up[0].hdr.typ, w.dev.rx, INCORRECT_SEQUENCE_NUMBER, true)],
                  w.dev.(rx := 0))
  {
    TakeTail(w, client);
  }

  lemma QueryTaken(w: World, client: Answers)
    requires w.up != [] && !w.dev.stuck && w.up[0].hdr.typ == TYPE_PROTOCOL_INFO
    ensures Take(w, client) == World(w.up[1..], w.down + [InfoResponse(w.dev)], w.dev.(tx := Next(w.dev.tx)))
  {
    TakeTail(w, client);
  }

  /** A refused request, a query and an acceptable request, taken one after the other. */
  lemma ThreeTaken(d: Device, early: Frame, ack: Frame, c: Frame, client: Answers) returns (w: World)
    requires !d.stuck && IsData(early) && early.hdr.typ in d.wired && early.hdr.number != d.rx
    requires ack.hdr.typ == TYPE_PROTOCOL_INFO && CarriesZero(c) && c.hdr.typ in d.wired
    ensures Reach(World([early, ack, c], [], d), [DeviceTakes, DeviceTakes, DeviceTakes], w, client)
    ensures |w.down| >= 2 && Refuses(w.down[0]) && w.down[1] == InfoResponse(d.(rx := 0)) && w.dev.rx == 1
  {
    var refusal, answer := Ack(early.hdr.typ, d.rx, INCORRECT_SEQUENCE_NUMBER, true), InfoResponse(d.(rx := 0));
    var w0 := World([early, ack, c], [], d);
    var w1 := World([ack, c], [refusal], d.(rx := 0));
    var w2 := World([c], [refusal, answer], d.(rx := 0, tx := Next(d.tx)));
    RefusedTaken(w0, client);
    QueryTaken(w1, client);
    w := Take(w2, client);
    TakeTail(w2, client);
    One(w0, DeviceTakes, client);
    One(w1, DeviceTakes, client);
    One(w2, DeviceTakes, client);
    Then(w0, [DeviceTakes], w1, [DeviceTakes], w2, client);
    Then(w0, [DeviceTakes] + [DeviceTakes], w2, [DeviceTakes], w, client);
    assert [DeviceTakes] + [DeviceTakes] + [DeviceTakes] == [DeviceTakes, DeviceTakes, DeviceTakes];
  }

  /** Neither losses nor restarts are needed: an earlier request is still on its way with
      an acknowledgement the device takes for a query behind it. The device refuses the
      earlier request, answers 0, and accepts the new request 0; the host reads the
      refusal, adopts the 0, and the device expects 1. */
  lemma StaleAnswerAdopted(h: BusState, typ: nibble, payload: seq<byte>, client: Answers, early: Frame, ack: Frame)
    requires h.w.up == [early, ack] && h.w.down == [] && h.tx == 0
    requires !h.w.dev.stuck && typ in h.w.dev.wired && typ != TYPE_PROTOCOL_INFO && 0 < |payload| <= MAX_PAYLOAD_LEN
    requires IsData(early) && early.hdr.typ in h.w.dev.wired && early.hdr.number != h.w.dev.rx
    requires ack.hdr.typ == TYPE_PROTOCOL_INFO
    ensures var script := [DeviceTakes, DeviceTakes, DeviceTakes] + [HostReads] + ([] + [HostReads] + []);
            var q := Request(h.(script := script), typ, payload, client, 1);
            q.resynced && q.host.tx == 0 && q.host.w.dev.rx == 1
  {
    var s := Sent(h, typ, payload).(requests := h.requests + 1);
    var c := Outgoing(typ, 0, payload);
    assert [early, ack] + [c] == [early, ack, c];
    assert s.w == World([early, ack, c], [], h.w.dev);
    var w := ThreeTaken(h.w.dev, early, ack, c, client);
    var first := [DeviceTakes, DeviceTakes, DeviceTakes];
    var v := World(w.up + [Query(s.tx)], w.down[1..], w.dev);
    assert ApplyAll(v, [], client) == v;
    ScriptedResync(s, typ, client, first, w, [], v);
    RequestWaits(h, typ, payload, client, first + [HostReads] + ([] + [HostReads] + []), 1);
  }
}
