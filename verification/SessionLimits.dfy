/** When `Session::request` may have its command accepted twice, or an earlier one
accepted beside it: for every link on which `Once.Unambiguous` fails there is such a
run. */
module SessionLimits {
  import opened Wire
  import opened Protocol
  import opened Link
  import opened Once
  import opened Runs
  import opened Session

  /** The host reads what is there after `events`. */
  lemma ReadAfter(h: SessionState, events: seq<Event>, rest: seq<Event>, w': World, client: Answers)
    requires h.script == events + [HostReads] + rest && Reach(h.w, events, w', client) && w'.down != []
    ensures Read(h, client) ==
            ReadOutcome(Some(w'.down[0]),
                    h.(w := w'.(down := w'.down[1..]), script := rest, handed := h.handed + [w'.down[0]]))
  {
    var tail := [HostReads] + rest;
    assert h.script == events + tail && tail[1..] == rest;
    ScriptedSkips(h.w, events, tail, client);
  }

  /** The deadline passes after `events`. */
  lemma LateAfter(h: SessionState, events: seq<Event>, w': World, client: Answers)
    requires h.script == events + [Deadline] && Reach(h.w, events, w', client)
    ensures Read(h, client) == ReadOutcome(None, h.(w := w', script := []))
  {
    ScriptedSkips(h.w, events, [Deadline], client);
    assert [Deadline][1..] == [];
    assert h.handed + [] == h.handed;
  }

  ghost predicate StartsQuiet(script: seq<Event>) {
    script != [] && !script[0].InTransit?
  }

  lemma StartsWith(events: seq<Event>, a: seq<Event>, b: seq<Event>)
    requires Quiet(events) && events != []
    ensures StartsQuiet(events + a + b)
  {
    assert (events + a + b)[0] == events[0] && events[0] in events;
  }

  /** A drain discards everything unless the script says otherwise. */
  lemma QuietDrain(events: seq<Event>, rest: seq<Event>, down: seq<Frame>)
    requires Quiet(events) && events != []
    ensures Outliving(down, events + rest) == [] && AfterDrain(events + rest) == events + rest
  {
    assert (events + rest)[0] == events[0] && events[0] in events;
  }

  lemma QueryAlone(w: World, q: Frame, client: Answers) returns (events: seq<Event>)
    requires w.up != [] && w.up[|w.up| - 1] == q && q.hdr.typ == TYPE_PROTOCOL_INFO && w.down == [] && !w.dev.stuck
    ensures events != []
    ensures Reach(w, events, World([], [InfoResponse(w.dev)], w.dev.(tx := Next(w.dev.tx))), client)
  {
    var lose := LoseOldest(w, |w.up| - 1, client);
    var w1 := w.(up := w.up[|w.up| - 1..]);
    assert w1.up == [q];
    One(w1, DeviceTakes, client);
    TakeTail(w1, client);
    var w2 := World([], [InfoResponse(w.dev)], w.dev.(tx := Next(w.dev.tx)));
    assert Take(w1, client) == w2;
    Then(w, lose, w1, [DeviceTakes], w2, client);
    events := lose + [DeviceTakes];
  }

  ghost predicate Acceptable(d: Device, typ: nibble, payload: seq<byte>) {
    !d.stuck && typ in d.wired && typ != TYPE_PROTOCOL_INFO && 0 < |payload| <= MAX_PAYLOAD_LEN
  }

  /** The second half of a resend: with the reported number the command is accepted. */
  lemma ResentAccepted(h: SessionState, typ: nibble, payload: seq<byte>, matches: Frame -> bool, client: Answers)
    requires h.script == [DeviceTakes] + [Deadline] && Acceptable(h.w.dev, typ, payload) && h.w.up == []
    ensures var q := Answer(SentCommand(h, typ, h.w.dev.rx, payload), typ, payload, true, matches, client);
            |q.host.w.dev.accepted| == |h.w.dev.accepted| + 1
  {
    var c := Command(typ, h.w.dev.rx, payload);
    QuietDrain([DeviceTakes], [Deadline], h.w.down);
    var s := SentCommand(h, typ, h.w.dev.rx, payload);
    assert s.w == World([c], [], h.w.dev);
    One(s.w, DeviceTakes, client);
    LateAfter(s, [DeviceTakes], Take(s.w, client), client);
  }

  /** `sync` with nothing in its way. */
  lemma SyncAfter(h: SessionState, client: Answers, second: seq<Event>, third: seq<Event>)
    requires h.script == second + [HostReads] + third && second != [] && !h.w.dev.stuck
    requires Reach(World(h.w.up + [Query(h.tx)], [], h.w.dev), second,
                   World([], [InfoResponse(h.w.dev)], h.w.dev.(tx := Next(h.w.dev.tx))), client)
    ensures var s := Sync(h, client, SYNC_TRIES);
            && s.next == Some(h.w.dev.rx) && s.host.w == World([], [], h.w.dev.(tx := Next(h.w.dev.tx)))
            && s.host.script == third
  {
    QuietDrain(second, [HostReads] + third, h.w.down);
    assert second + ([HostReads] + third) == h.script;
    var b := Sent(h, Query(h.tx)).(queries := h.queries + 1);
    ReadAfter(b, second, third, World([], [InfoResponse(h.w.dev)], h.w.dev.(tx := Next(h.w.dev.tx))), client);
  }

  /** From the refusal on. */
  lemma ResendAfter(h: SessionState, typ: nibble, payload: seq<byte>, matches: Frame -> bool, client: Answers,
                    second: seq<Event>)
    requires h.script == second + [HostReads] + ([DeviceTakes] + [Deadline]) && second != []
    requires Acceptable(h.w.dev, typ, payload)
    requires Reach(World(h.w.up + [Query(h.tx)], [], h.w.dev), second,
                   World([], [InfoResponse(h.w.dev)], h.w.dev.(tx := Next(h.w.dev.tx))), client)
    ensures var s := Sync(h, client, SYNC_TRIES);
            && s.next.Some?
            && |Answer(SentCommand(s.host, typ, s.next.value, payload), typ, payload, true, matches, client)
                .host.w.dev.accepted| == |h.w.dev.accepted| + 1
  {
    SyncAfter(h, client, second, [DeviceTakes] + [Deadline]);
    ResentAccepted(Sync(h, client, SYNC_TRIES).host, typ, payload, matches, client);
  }

  lemma HonestScript(a: seq<Event>, b: seq<Event>)
    requires Quiet(a) && Quiet(b)
    ensures HonestEvents(a + [HostReads] + (b + [HostReads] + ([DeviceTakes] + [Deadline])))
  {
  }

  /** A host that reads a refusal resynchronises, and its resend is accepted. */
  lemma RefusalResends(h: SessionState, typ: nibble, payload: seq<byte>, matches: Frame -> bool, client: Answers,
                       first: seq<Event>, w: World) returns (rest: seq<Event>)
    requires Reach(h.w, first, w, client) && w.down != [] && IsRefusal(w.down[0]) && Acceptable(w.dev, typ, payload)
    ensures HonestEvents(first + [HostReads] + rest)
    ensures var q := Answer(h.(script := first + [HostReads] + rest), typ, payload, false, matches, client);
            |q.host.w.dev.accepted| == |w.dev.accepted| + 1
  {
    var second := QueryAlone(World(w.up + [Query(h.tx)], [], w.dev), Query(h.tx), client);
    rest := second + [HostReads] + ([DeviceTakes] + [Deadline]);
    HonestScript(first, second);
    var s := h.(script := first + [HostReads] + rest);
    ReadAfter(s, first, rest, w, client);
    ResendAfter(Read(s, client).host, typ, payload, matches, client, second);
  }

  /** The device takes the oldest command and accepts it, after a restart if need be. */
  lemma AcceptOldest(w: World, client: Answers) returns (events: seq<Event>, w': World)
    requires w.up != [] && IsData(w.up[0]) && w.up[0].hdr.typ in w.dev.wired && !w.dev.stuck && !Doomed(w, w.up[0])
    ensures Reach(w, events, w', client) && events != []
    ensures w'.up == w.up[1..] && w.down <= w'.down
    ensures w'.dev.accepted == w.dev.accepted + [w.up[0]] && !w'.dev.stuck && w'.dev.wired == w.dev.wired
  {
    events, w' := [], w;
    if w.up[0].hdr.number != w.dev.rx {
      One(w, DeviceReset, client);
      events, w' := [DeviceReset], Apply(w, DeviceReset, client);
    }
    One(w', DeviceTakes, client);
    Then(w, events, w', [DeviceTakes], Take(w', client), client);
    TakeTail(w', client);
    events, w' := events + [DeviceTakes], Take(w', client);
  }

  /** Everything but the newest frame on its way up is lost. */
  lemma OnlyNewest(w: World, client: Answers) returns (events: seq<Event>)
    requires w.up != []
    ensures Reach(w, events, w.(up := [w.up[|w.up| - 1]]), client)
  {
    events := LoseOldest(w, |w.up| - 1, client);
    assert w.up[|w.up| - 1..] == [w.up[|w.up| - 1]];
  }

  /** The newest command is accepted and a refusal is what the host reads next. */
  lemma AcceptBesideRefusal(w: World, i: nat, client: Answers) returns (events: seq<Event>, w': World)
    requires w.up != [] && IsData(w.up[|w.up| - 1]) && w.up[|w.up| - 1].hdr.typ in w.dev.wired && !w.dev.stuck
    requires !Doomed(w, w.up[|w.up| - 1]) && i < |w.down|
    ensures Reach(w, events, w', client) && events != []
    ensures w'.down != [] && w'.down[0] == w.down[i] && |w'.dev.accepted| == |w.dev.accepted| + 1
    ensures !w'.dev.stuck && w'.dev.wired == w.dev.wired
  {
    var a := OnlyNewest(w, client);
    var w1 := w.(up := [w.up[|w.up| - 1]]);
    var b, w2 := AcceptOldest(w1, client);
    Then(w, a, w1, b, w2, client);
    assert w2.down[i] == w.down[i];
    var c := LoseNextDown(w2, i, client);
    w' := w2.(down := w2.down[i..]);
    Then(w, a + b, w2, c, w', client);
    events := a + b + c;
  }

  lemma AcceptedBesideRefusal(h: SessionState, typ: nibble, payload: seq<byte>, matches: Frame -> bool, client: Answers,
                              first: seq<Event>, w: World, i: nat) returns (run: seq<Event>)
    requires Reach(h.w, first, w, client) && Acceptable(w.dev, typ, payload)
    requires i < |w.down| && IsRefusal(w.down[i])
    requires w.up != [] && IsData(w.up[|w.up| - 1]) && w.up[|w.up| - 1].hdr.typ in w.dev.wired
    requires !Doomed(w, w.up[|w.up| - 1])
    ensures HonestEvents(run) && StartsQuiet(run)
    ensures var q := Answer(h.(script := run), typ, payload, false, matches, client);
            |q.host.w.dev.accepted| == |w.dev.accepted| + 2
  {
    var a, w1 := AcceptBesideRefusal(w, i, client);
    Then(h.w, first, w, a, w1, client);
    var rest := RefusalResends(h, typ, payload, matches, client, first + a, w1);
    StartsWith(first + a, [HostReads], rest);
    run := first + a + [HostReads] + rest;
  }

  lemma AcceptAt(w: World, p: nat, client: Answers) returns (events: seq<Event>, w': World)
    requires AllWired(w) && p < |w.up| && IsData(w.up[p]) && !Doomed(w, w.up[p])
    ensures Reach(w, events, w', client)
    ensures w'.up == w.up[p + 1..] && |w'.dev.accepted| == |w.dev.accepted| + 1
    ensures !w'.dev.stuck && w'.dev.wired == w.dev.wired
  {
    assert w.up[p] in w.up;
    var a := LoseOldest(w, p, client);
    var w1 := w.(up := w.up[p..]);
    var b;
    b, w' := AcceptOldest(w1, client);
    Then(w, a, w1, b, w', client);
    events := a + b;
  }

  /** Everything in flight but the newest frame on its way up is lost. */
  lemma NewestAlone(w: World, client: Answers) returns (events: seq<Event>)
    requires w.up != []
    ensures Reach(w, events, World([w.up[|w.up| - 1]], [], w.dev), client)
  {
    var a := OnlyNewest(w, client);
    var w1 := w.(up := [w.up[|w.up| - 1]]);
    var b := LoseNextDown(w1, |w1.down|, client);
    assert w1.(down := w1.down[|w1.down|..]) == World([w.up[|w.up| - 1]], [], w.dev);
    Then(w, a, w1, b, World([w.up[|w.up| - 1]], [], w.dev), client);
    events := a + b;
  }

  /** An earlier command is accepted, and nothing but the newest is left. */
  lemma AcceptEarlier(w: World, p: nat, client: Answers) returns (events: seq<Event>, d: Device)
    requires AllWired(w) && p < |w.up| - 1 && IsData(w.up[p]) && !Doomed(w, w.up[p])
    ensures Reach(w, events, World([w.up[|w.up| - 1]], [], d), client)
    ensures |d.accepted| == |w.dev.accepted| + 1 && !d.stuck && d.wired == w.dev.wired
  {
    var a, w1 := AcceptAt(w, p, client);
    var b := NewestAlone(w1, client);
    d := w1.dev;
    assert w1.up[|w1.up| - 1] == w.up[|w.up| - 1];
    Then(w, a, w1, b, World([w.up[|w.up| - 1]], [], d), client);
    events := a + b;
  }

  /** What the device makes of a command that is alone on its way. */
  lemma AloneTaken(d: Device, c: Frame, client: Answers)
    requires !d.stuck && IsData(c) && c.hdr.typ in d.wired
    ensures var t := Take(World([c], [], d), client);
            && t.dev.wired == d.wired && !t.dev.stuck
            && if c.hdr.number == d.rx then |t.dev.accepted| == |d.accepted| + 1
               else t.dev.accepted == d.accepted && t.down != [] && IsRefusal(t.down[0])
  {
    TakeTail(World([c], [], d), client);
  }

  /** The caller's command is taken behind `a`: accepted, or refused and then resent. */
  lemma TakenOrResent(h: SessionState, typ: nibble, payload: seq<byte>, matches: Frame -> bool, client: Answers,
                      a: seq<Event>, t: World, accepted: bool) returns (run: seq<Event>)
    requires Reach(h.w, a + [DeviceTakes], t, client) && Acceptable(t.dev, typ, payload)
    requires !accepted ==> t.down != [] && IsRefusal(t.down[0])
    ensures HonestEvents(run) && StartsQuiet(run)
    ensures var q := Answer(h.(script := run), typ, payload, false, matches, client);
            |q.host.w.dev.accepted| == |t.dev.accepted| + (if accepted then 0 else 1)
  {
    if accepted {
      run := a + [DeviceTakes] + [Deadline];
      LateAfter(h.(script := run), a + [DeviceTakes], t, client);
      StartsWith(a + [DeviceTakes], [Deadline], []);
      assert run + [] == run;
    } else {
      var rest := RefusalResends(h, typ, payload, matches, client, a + [DeviceTakes], t);
      StartsWith(a + [DeviceTakes], [HostReads], rest);
      run := a + [DeviceTakes] + [HostReads] + rest;
    }
  }

  /** An earlier command is accepted, and then the caller's, if need be when resent. */
  lemma EarlierAccepted(h: SessionState, typ: nibble, payload: seq<byte>, matches: Frame -> bool,
                        client: Answers, p: nat)
    returns (run: seq<Event>)
    requires AllWired(h.w) && Acceptable(h.w.dev, typ, payload)
    requires p < |h.w.up| - 1 && IsData(h.w.up[p]) && !Doomed(h.w, h.w.up[p])
    requires IsData(h.w.up[|h.w.up| - 1])
    ensures HonestEvents(run) && StartsQuiet(run)
    ensures var q := Answer(h.(script := run), typ, payload, false, matches, client);
            |q.host.w.dev.accepted| == |h.w.dev.accepted| + 2
  {
    var c := h.w.up[|h.w.up| - 1];
    assert c in h.w.up;
    var a, d := AcceptEarlier(h.w, p, client);
    var w := World([c], [], d);
    One(w, DeviceTakes, client);
    AloneTaken(d, c, client);
    var t := Take(w, client);
    Then(h.w, a, w, [DeviceTakes], t, client);
    run := TakenOrResent(h, typ, payload, matches, client, a, t, c.hdr.number == d.rx);
  }

  /** An earlier command is refused and the caller's, numbered 0, accepted after it. */
  lemma EarlierRefused(h: SessionState, typ: nibble, payload: seq<byte>, matches: Frame -> bool,
                       client: Answers, p: nat)
    returns (run: seq<Event>)
    requires AllWired(h.w) && Acceptable(h.w.dev, typ, payload) && h.w.down == []
    requires p < |h.w.up| - 1 && IsData(h.w.up[p]) && Doomed(h.w, h.w.up[p])
    requires IsData(h.w.up[|h.w.up| - 1]) && h.w.up[|h.w.up| - 1].hdr.number == 0
    ensures HonestEvents(run) && StartsQuiet(run)
    ensures var q := Answer(h.(script := run), typ, payload, false, matches, client);
            |q.host.w.dev.accepted| == |h.w.dev.accepted| + 2
  {
    var c := h.w.up[|h.w.up| - 1];
    assert c in h.w.up;
    var a, w := RefuseEarlier(h.w, p, client);
    assert w.up[|w.up| - 1] == c;
    run := AcceptedBesideRefusal(h, typ, payload, matches, client, a, w, 0);
  }

  lemma RefuseEarlier(w: World, p: nat, client: Answers) returns (events: seq<Event>, w': World)
    requires AllWired(w) && w.down == [] && p < |w.up| && IsData(w.up[p]) && Doomed(w, w.up[p])
    ensures Reach(w, events, w', client)
    ensures w'.up == w.up[p + 1..] && w'.dev == w.dev.(rx := 0) && |w'.down| == 1 && IsRefusal(w'.down[0])
  {
    assert w.up[p] in w.up;
    var a := LoseOldest(w, p, client);
    var w1 := w.(up := w.up[p..]);
    One(w1, DeviceTakes, client);
    TakeTail(w1, client);
    w' := Take(w1, client);
    Then(w, a, w1, [DeviceTakes], w', client);
    events := a + [DeviceTakes];
  }

  ghost predicate OnceAfter(h: SessionState, q: RequestOutcome, later: seq<Event>, typ: nibble, payload: seq<byte>,
                            client: Answers)
  {
    AtMostOneMore(h.w.dev.accepted, ApplyAll(q.host.w, later, client).dev.accepted, IsCommand(typ, payload))
  }

  /** In every honest run, during the call and in all events after it, the command is
      accepted at most once, and nothing else. */
  ghost predicate AlwaysOnce(h: SessionState, typ: nibble, payload: seq<byte>, matches: Frame -> bool,
                             client: Answers)
  {
    forall script, later :: HonestEvents(script) && HonestEvents(later) ==>
      OnceAfter(h, Request(h.(script := script), typ, payload, matches, client), later, typ, payload, client)
  }

  /** A run starts with a drain that discards everything. */
  lemma DrainedStart(h: SessionState, typ: nibble, payload: seq<byte>, matches: Frame -> bool, client: Answers,
                     script: seq<Event>)
    requires StartsQuiet(script)
    ensures var s := h.(w := h.w.(up := h.w.up + [Command(typ, h.tx, payload)], down := []),
                        tx := (h.tx % 16 + 1) % 16, commands := h.commands + 1, script := script,
                        wrote := h.wrote + [Command(typ, h.tx, payload)]);
            Request(h.(script := script), typ, payload, matches, client) ==
            Answer(s, typ, payload, false, matches, client)
  {
    var s := h.(w := h.w.(up := h.w.up + [Command(typ, h.tx, payload)], down := []),
                tx := (h.tx % 16 + 1) % 16, commands := h.commands + 1, script := script,
                wrote := h.wrote + [Command(typ, h.tx, payload)]);
    assert Outliving(h.w.down, script) == [] && AfterDrain(script) == script;
    assert SentCommand(h.(script := script), typ, h.tx, payload) == s;
  }

  /** A run starts with a drain that finds nothing has arrived yet. */
  lemma UndrainedStart(h: SessionState, typ: nibble, payload: seq<byte>, matches: Frame -> bool, client: Answers,
                       script: seq<Event>)
    ensures var s := h.(w := h.w.(up := h.w.up + [Command(typ, h.tx, payload)]),
                        tx := (h.tx % 16 + 1) % 16, commands := h.commands + 1, script := script,
                        wrote := h.wrote + [Command(typ, h.tx, payload)]);
            Request(h.(script := [InTransit(|h.w.down|)] + script), typ, payload, matches, client) ==
            Answer(s, typ, payload, false, matches, client)
  {
    var s := h.(w := h.w.(up := h.w.up + [Command(typ, h.tx, payload)]),
                tx := (h.tx % 16 + 1) % 16, commands := h.commands + 1, script := script,
                wrote := h.wrote + [Command(typ, h.tx, payload)]);
    assert ([InTransit(|h.w.down|)] + script)[1..] == script;
    assert SentCommand(h.(script := [InTransit(|h.w.down|)] + script), typ, h.tx, payload) == s;
  }

  lemma AmbiguousGoesWrong(h: SessionState, typ: nibble, payload: seq<byte>, matches: Frame -> bool, client: Answers)
    returns (run: seq<Event>)
    requires AllWired(h.w) && Acceptable(h.w.dev, typ, payload)
    requires !Unambiguous(h.w, Command(typ, h.tx, payload))
    ensures HonestEvents(run)
    ensures |Request(h.(script := run), typ, payload, matches, client).host.w.dev.accepted| ==
            |h.w.dev.accepted| + 2
  {
    var c := Command(typ, h.tx, payload);
    var s := h.(w := h.w.(up := h.w.up + [c]), tx := (h.tx % 16 + 1) % 16, commands := h.commands + 1,
                wrote := h.wrote + [c]);
    var d := s.(w := s.w.(down := []));
    assert forall f :: f in s.w.up ==> f in h.w.up || f == c;
    if f :| f in h.w.up && IsData(f) && (!Doomed(h.w, f) || c.hdr.number == 0) {
      var p :| 0 <= p < |h.w.up| && h.w.up[p] == f;
      assert d.w.up[p] == f && d.w.up[|d.w.up| - 1] == c;
      if !Doomed(h.w, f) {
        run := EarlierAccepted(d, typ, payload, matches, client, p);
      } else {
        run := EarlierRefused(d, typ, payload, matches, client, p);
      }
      DrainedStart(h, typ, payload, matches, client, run);
    } else {
      var f :| f in h.w.down && IsRefusal(f);
      var i :| 0 <= i < |h.w.down| && h.w.down[i] == f;
      assert s.w.up[|s.w.up| - 1] == c;
      assert Reach(s.w, [], s.w, client);
      var rest := AcceptedBesideRefusal(s, typ, payload, matches, client, [], s.w, i);
      UndrainedStart(h, typ, payload, matches, client, rest);
      run := [InTransit(|h.w.down|)] + rest;
    }
  }

  lemma UnambiguousOnce(h: SessionState, typ: nibble, payload: seq<byte>, matches: Frame -> bool, client: Answers)
    requires Honest(client) && Unambiguous(h.w, Command(typ, h.tx, payload))
    ensures AlwaysOnce(h, typ, payload, matches, client)
  {
    forall script, later | HonestEvents(script) && HonestEvents(later)
      ensures OnceAfter(h, Request(h.(script := script), typ, payload, matches, client), later, typ, payload, client)
    {
      DrainKeeps(h.w, script);
      RequestAtMostOnce(h.(script := script), typ, payload, matches, client, later);
    }
  }

  lemma TwiceIsNotOnce(h: SessionState, typ: nibble, payload: seq<byte>, matches: Frame -> bool, client: Answers,
                       script: seq<Event>, none: seq<Event>)
    requires HonestEvents(script) && none == []
    requires |Request(h.(script := script), typ, payload, matches, client).host.w.dev.accepted| ==
             |h.w.dev.accepted| + 2
    ensures !AlwaysOnce(h, typ, payload, matches, client)
  {
    var q := Request(h.(script := script), typ, payload, matches, client);
    assert ApplyAll(q.host.w, none, client) == q.host.w;
    assert HonestEvents(none) && !OnceAfter(h, q, none, typ, payload, client);
  }

  /** The exact condition, checkable from what is in flight when the command is sent: an
      earlier command on its way carries neither the expected number nor 0, and then
      the new one does not carry 0 either; and if a refusal is on its way back, the
      new command carries neither. */
  lemma OnceIffUnambiguous(h: SessionState, typ: nibble, payload: seq<byte>, matches: Frame -> bool, client: Answers)
    requires Honest(client) && AllWired(h.w) && Acceptable(h.w.dev, typ, payload)
    ensures AlwaysOnce(h, typ, payload, matches, client) <==> Unambiguous(h.w, Command(typ, h.tx, payload))
  {
    if Unambiguous(h.w, Command(typ, h.tx, payload)) {
      UnambiguousOnce(h, typ, payload, matches, client);
    } else {
      var script := AmbiguousGoesWrong(h, typ, payload, matches, client);
      TwiceIsNotOnce(h, typ, payload, matches, client, script, []);
    }
  }
}
