/** What can be said of a link between two frames: when host and device are in step,
when a resynchronisation will bring them together, and why nothing that happens on
the link disturbs these. */
module LinkState {
  import opened Wire
  import opened Protocol
  import opened Link

  /** No honest party breaks `inv` by doing any of `events`. */
  ghost predicate Stable(inv: World -> bool, events: seq<Event>, client: Answers) {
    forall w, e :: e in events && inv(w) ==> inv(Apply(w, e, client))
  }

  lemma {:induction false} StableRun(inv: World -> bool, w: World, events: seq<Event>, client: Answers)
    requires Stable(inv, events, client) && inv(w)
    ensures inv(ApplyAll(w, events, client))
  {
    if events != [] {
      var k := |events| - 1;
      assert events[k] in events && forall e :: e in events[..k] ==> e in events;
      StableRun(inv, w, events[..k], client);
    }
  }

  /** The acknowledgement `bus_rx_work` sends for a frame, if any. */
  function AutoAck(f: Frame): seq<Frame> {
    if f.hdr.length > 0 && !f.hdr.noAck then [Ack(f.hdr.typ, f.hdr.number, NO_ERROR, false)] else []
  }

  /** The host's work item hands over the oldest frame and acknowledges it. */
  function HandedOver(w: World): World
    requires w.down != []
  {
    w.(down := w.down[1..], up := w.up + AutoAck(w.down[0]))
  }

  lemma HandedOverData(w: World)
    requires w.down != []
    ensures DataOf(HandedOver(w).up) == DataOf(w.up)
    ensures w.down[0] in w.down && forall g :: g in HandedOver(w).down ==> g in w.down
  {
    var ack := AutoAck(w.down[0]);
    if ack != [] {
      DataOfSnoc(w.up, ack[0]);
    } else {
      assert w.up + ack == w.up;
    }
  }

  predicate KeepsStep(e: Event) {
    !e.LoseUp? && !e.DeviceReset?
  }

  ghost predicate Fair(e: Event) {
    e.ClientEmits? ==> Benign(e.frame)
  }

  // ---------------------------------------------------------------- in step

  /** Host and device are in step: the commands in flight carry the numbers the device
      will expect, one after the other, and the host's counter is the one after. */
  ghost predicate InStep(w: World, tx: nibble) {
    var data := DataOf(w.up);
    && !w.dev.stuck
    && (forall f :: f in w.down ==> !IsRefusal(f))
    && (forall f :: f in data ==> f.hdr.typ in w.dev.wired)
    && Numbered(data, w.dev.rx, tx)
  }

  /** The frames carry `rx`, `rx` + 1, ... modulo 16, and `tx` is the number after. */
  ghost predicate Numbered(data: seq<Frame>, rx: nibble, tx: nibble) {
    && (forall k :: 0 <= k < |data| ==> data[k].hdr.number == Advance(rx, k))
    && tx == Advance(rx, |data|)
  }

  lemma NumberedPop(f: Frame, rest: seq<Frame>, rx: nibble, tx: nibble)
    requires Numbered([f] + rest, rx, tx)
    ensures f.hdr.number == rx && Numbered(rest, Next(rx), tx)
  {
    var data := [f] + rest;
    assert data[0] == f && data[0].hdr.number == Advance(rx, 0);
    AdvanceTwice(rx, 0);
    forall k | 0 <= k < |rest| ensures rest[k].hdr.number == Advance(Next(rx), k) {
      assert rest[k] == data[k + 1];
      AdvanceNext(rx, k);
    }
    assert |data| == |rest| + 1;
    AdvanceNext(rx, |rest|);
  }

  lemma NumberedPush(data: seq<Frame>, f: Frame, rx: nibble, tx: nibble)
    requires Numbered(data, rx, tx) && f.hdr.number == tx
    ensures Numbered(data + [f], rx, Next(tx))
  {
    AdvanceNext(rx, |data|);
  }

  /** Every command that has reached the device or is on its way. */
  ghost function Commands(w: World): seq<Frame> {
    w.dev.accepted + DataOf(w.up)
  }

  lemma CommandsPop(accepted: seq<Frame>, f: Frame, rest: seq<Frame>)
    ensures (accepted + [f]) + rest == accepted + ([f] + rest)
  {
  }

  /** The oldest command of a link in step is accepted. */
  lemma OldestAccepted(w: World, tx: nibble)
    requires InStep(w, tx) && w.up != [] && IsData(w.up[0])
    ensures React(w.dev, w.up[0]).dev == w.dev.(rx := Next(w.dev.rx), accepted := w.dev.accepted + [w.up[0]])
    ensures Numbered(DataOf(w.up[1..]), Next(w.dev.rx), tx)
    ensures DataOf(w.up) == [w.up[0]] + DataOf(w.up[1..])
  {
    DataOfFirst(w.up);
    assert w.up[0] in DataOf(w.up);
    NumberedPop(w.up[0], DataOf(w.up[1..]), w.dev.rx, tx);
  }

  /** A command that is not refused provokes no refusal, and other frames never do. */
  lemma TailBenign(w: World, client: Answers)
    requires Honest(client) && w.up != []
    requires IsData(w.up[0]) ==> w.up[0].hdr.number == w.dev.rx
    ensures forall g :: g in Tail(w, client) ==> !IsRefusal(g)
  {
    forall g | g in client(w.up[0]) ensures Benign(g) {
    }
  }

  lemma TakeOtherInStep(w: World, client: Answers, tx: nibble)
    requires Honest(client) && InStep(w, tx) && w.up != [] && !IsData(w.up[0])
    ensures InStep(Take(w, client), tx) && Commands(Take(w, client)) == Commands(w)
  {
    DataOfFirst(w.up);
    TakeTail(w, client);
    TailBenign(w, client);
  }

  lemma TakeDataInStep(w: World, client: Answers, tx: nibble)
    requires Honest(client) && InStep(w, tx) && w.up != [] && IsData(w.up[0])
    ensures InStep(Take(w, client), tx) && Commands(Take(w, client)) == Commands(w)
  {
    OldestAccepted(w, tx);
    TakeTail(w, client);
    assert w.up[0].hdr.number == w.dev.rx by {
      NumberedPop(w.up[0], DataOf(w.up[1..]), w.dev.rx, tx);
    }
    TailBenign(w, client);
    CommandsPop(w.dev.accepted, w.up[0], DataOf(w.up[1..]));
    assert forall f :: f in DataOf(w.up[1..]) ==> f in DataOf(w.up);
  }

  /** Nothing that happens on a link without upward losses or restarts puts the two
      sides out of step, loses a command or reorders one. */
  lemma ApplyInStep(w: World, e: Event, client: Answers, tx: nibble)
    requires Honest(client) && Fair(e) && KeepsStep(e) && InStep(w, tx)
    ensures InStep(Apply(w, e, client), tx)
    ensures Commands(Apply(w, e, client)) == Commands(w)
    ensures Apply(w, e, client).dev.wired == w.dev.wired
  {
    if e.DeviceTakes? && w.up != [] {
      if IsData(w.up[0]) {
        TakeDataInStep(w, client, tx);
      } else {
        TakeOtherInStep(w, client, tx);
      }
    }
  }

  lemma HandedOverInStep(w: World, tx: nibble)
    requires w.down != [] && InStep(w, tx)
    ensures InStep(HandedOver(w), tx) && Commands(HandedOver(w)) == Commands(w) && !IsRefusal(w.down[0])
  {
    HandedOverData(w);
  }

  /** Sending the next command keeps a link in step. */
  lemma PushInStep(w: World, f: Frame)
    requires InStep(w, f.hdr.number) && IsData(f) && f.hdr.typ in w.dev.wired
    ensures var t := w.(up := w.up + [f]);
            InStep(t, Next(f.hdr.number)) && Commands(t) == Commands(w) + [f]
  {
    DataOfSnoc(w.up, f);
    NumberedPush(DataOf(w.up), f, w.dev.rx, f.hdr.number);
    assert w.dev.accepted + (DataOf(w.up) + [f]) == (w.dev.accepted + DataOf(w.up)) + [f];
  }

  // ---------------------------------------------------------------- answers in flight

  /** A frame that is no refusal and, if it is a PROTOCOL_INFO answer, tells `mask` and `n`. */
  predicate Says(f: Frame, mask: word, n: nibble) {
    !IsRefusal(f) &&
    (f.hdr.typ == TYPE_PROTOCOL_INFO && |f.payload| == 4 ==> f.payload == InfoPayload(mask, n))
  }

  /** No command is in flight, and whatever PROTOCOL_INFO answer comes next tells the
      device's mask and the number `n` it expects. */
  ghost predicate Truthful(w: World, n: nibble) {
    DataOf(w.up) == [] && w.dev.rx == n && !w.dev.stuck && forall f :: f in w.down ==> Says(f, w.dev.mask, n)
  }

  /** At most one command is in flight, and none behind a refusal: when a refusal is in
      flight the device expects 0, and every PROTOCOL_INFO answer behind it says 0. */
  ghost predicate Ordered(w: World) {
    && |DataOf(w.up)| <= 1
    && (forall i :: 0 <= i < |w.down| && IsRefusal(w.down[i]) ==> DataOf(w.up) == [] && RestartedAt(w, i))
  }

  /** The device expects 0, and so say all answers behind the `i`-th frame. */
  ghost predicate RestartedAt(w: World, i: nat) {
    w.dev.rx == 0 && !w.dev.stuck && forall j :: i < j < |w.down| ==> Says(w.down[j], w.dev.mask, 0)
  }

  lemma TailOther(w: World, client: Answers)
    requires w.up != [] && !IsData(w.up[0])
    ensures React(w.dev, w.up[0]).dev == w.dev.(tx := React(w.dev, w.up[0]).dev.tx)
    ensures forall g :: g in Tail(w, client) ==> Says(g, w.dev.mask, w.dev.rx)
  {
  }

  /** A command is answered by benign frames, or by one refusal after which 0 is expected. */
  lemma TailData(w: World, client: Answers)
    requires Honest(client) && w.up != [] && IsData(w.up[0])
    ensures React(w.dev, w.up[0]).dev.mask == w.dev.mask
    ensures || (forall g :: g in Tail(w, client) ==> !IsRefusal(g))
            || (|Tail(w, client)| == 1 && React(w.dev, w.up[0]).dev == w.dev.(rx := 0) && !w.dev.stuck)
  {
    if w.up[0].hdr.number == w.dev.rx {
      TailBenign(w, client);
    }
  }

  lemma TakeOrdered(w: World, client: Answers)
    requires Honest(client) && Ordered(w)
    ensures Ordered(Take(w, client))
  {
    if w.up != [] {
      DataOfFirst(w.up);
      TakeTail(w, client);
      if IsData(w.up[0]) {
        TailData(w, client);
      } else {
        TailOther(w, client);
      }
      var t, tail := Take(w, client), Tail(w, client);
      forall i | 0 <= i < |t.down| && IsRefusal(t.down[i]) ensures DataOf(t.up) == [] && RestartedAt(t, i) {
        assert i >= |w.down| ==> t.down[i] == tail[i - |w.down|];
        assert forall j :: |w.down| <= j < |t.down| ==> t.down[j] == tail[j - |w.down|];
      }
    }
  }

  lemma ApplyOrdered(w: World, e: Event, client: Answers)
    requires Honest(client) && Fair(e) && Ordered(w)
    ensures Ordered(Apply(w, e, client))
  {
    match e
    case DeviceTakes => TakeOrdered(w, client);
    case LoseUp(at) => DataOfWithout(w.up, at);
    case LoseDown(at) => WithoutIndex(w.down, at);
    case _ =>
  }

  lemma ApplyTruthful(w: World, e: Event, client: Answers, n: nibble)
    requires Honest(client) && Fair(e) && Truthful(w, n)
    requires n == 0 || !e.DeviceReset?
    ensures Truthful(Apply(w, e, client), n)
  {
    match e
    case DeviceTakes =>
      if w.up != [] {
        DataOfFirst(w.up);
        TakeTail(w, client);
        TailOther(w, client);
      }
    case LoseUp(at) => DataOfWithout(w.up, at);
    case _ =>
  }

  lemma HandedOverTruthful(w: World, n: nibble)
    requires w.down != [] && Truthful(w, n)
    ensures Truthful(HandedOver(w), n) && Says(w.down[0], w.dev.mask, n)
  {
    HandedOverData(w);
  }

  /** Behind a refusal come only true answers. */
  lemma HandedOverOrdered(w: World)
    requires w.down != [] && Ordered(w)
    ensures Ordered(HandedOver(w)) && (IsRefusal(w.down[0]) ==> Truthful(HandedOver(w), 0))
  {
    HandedOverData(w);
    var t := HandedOver(w);
    assert forall i :: 0 <= i < |t.down| ==> t.down[i] == w.down[i + 1];
    forall i | 0 <= i < |t.down| && IsRefusal(t.down[i]) ensures DataOf(t.up) == [] && RestartedAt(t, i) {
      assert RestartedAt(w, i + 1);
    }
    if IsRefusal(w.down[0]) {
      assert RestartedAt(w, 0);
      forall g | g in t.down ensures Says(g, t.dev.mask, 0) {
        var j :| 0 <= j < |t.down| && t.down[j] == g;
        assert g == w.down[j + 1];
      }
    }
  }

  /** With nothing but harmless frames in flight one more command leaves the link ordered. */
  lemma PushOrdered(w: World, f: Frame)
    requires DataOf(w.up) == [] && forall g :: g in w.down ==> !IsRefusal(g)
    ensures Ordered(w.(up := w.up + [f]))
  {
    DataOfSnoc(w.up, f);
  }

  // ---------------------------------------------------------------- resynchronisation

  /** What `bus_request` takes for a refusal. */
  predicate Refuses(f: Frame) {
    f.hdr.length == 0 && IsRefusal(f)
  }

  /** What `bus_sync` takes for an answer. */
  predicate IsAnswer(f: Frame) {
    f.hdr.typ == TYPE_PROTOCOL_INFO && f.hdr.length == 4 && |f.payload| == 4
  }

  /** If it makes `bus_sync` adopt a number, then `n`. */
  predicate Tells(f: Frame, n: nibble) {
    IsAnswer(f) && f.payload[0] == PROTOCOL_VERSION ==> f.payload[3] == n
  }

  /** A command numbered 0. */
  predicate CarriesZero(f: Frame) {
    IsData(f) && f.hdr.number == 0
  }

  /** The device expects 0 and will not accept anything in flight. */
  ghost predicate Restarted(w: World) {
    w.dev.rx == 0 && forall f :: f in w.up ==> !CarriesZero(f)
  }

  /** As seen from the host, which has read a refusal. */
  ghost predicate Cleared(w: World) {
    Restarted(w) && forall f :: f in w.down ==> Tells(f, 0)
  }

  /** The first of two commands cannot be refused, whatever happens: it is the oldest
      in flight and carries the 0 the device expects. */
  ghost predicate Unrefusable(w: World, p: nat)
    requires p < |w.up|
  {
    w.dev.rx == 0 && w.up[p].hdr.number == 0 && forall o :: 0 <= o < p ==> !IsData(w.up[o])
  }

  /** The exact condition for a resynchronisation to bring host and device together:
      no command numbered 0 follows one that may be refused, and if a refusal is
      already on its way back then no command numbered 0 is in flight, the device
      expects 0, and so do the answers behind the refusal say. */
  ghost predicate Resyncable(w: World) {
    && (forall p, q :: 0 <= p < q < |w.up| && IsData(w.up[p]) && CarriesZero(w.up[q]) ==> Unrefusable(w, p))
    && (forall i :: 0 <= i < |w.down| && Refuses(w.down[i]) ==> ClearedAt(w, i))
  }

  ghost predicate ClearedAt(w: World, i: nat) {
    Restarted(w) && forall j :: i < j < |w.down| ==> Tells(w.down[j], 0)
  }

  lemma RestartedTake(w: World, client: Answers)
    requires Restarted(w) && w.up != []
    ensures Restarted(Take(w, client))
    ensures forall g :: g in Tail(w, client) ==> Tells(g, 0)
    ensures React(w.dev, w.up[0]).dev.accepted == w.dev.accepted
  {
    assert w.up[0] in w.up;
  }

  lemma ApplyRestarted(w: World, e: Event, client: Answers)
    requires Restarted(w)
    ensures Restarted(Apply(w, e, client))
  {
    if e.DeviceTakes? && w.up != [] {
      RestartedTake(w, client);
    }
  }

  lemma ApplyCleared(w: World, e: Event, client: Answers)
    requires Fair(e) && Cleared(w)
    ensures Cleared(Apply(w, e, client))
  {
    ApplyRestarted(w, e, client);
    if e.DeviceTakes? && w.up != [] {
      RestartedTake(w, client);
      TakeTail(w, client);
    }
  }

  /** No command numbered 0 follows another, after the first of them has been taken. */
  lemma PairsAfterTake(w: World, client: Answers)
    requires Resyncable(w) && w.up != []
    ensures var t := Take(w, client);
            forall p, q :: 0 <= p < q < |t.up| && IsData(t.up[p]) && CarriesZero(t.up[q]) ==> Unrefusable(t, p)
  {
    var t := Take(w, client);
    forall p, q | 0 <= p < q < |t.up| && IsData(t.up[p]) && CarriesZero(t.up[q]) ensures Unrefusable(t, p) {
      assert t.up[p] == w.up[p + 1] && t.up[q] == w.up[q + 1];
      assert Unrefusable(w, p + 1);
      assert !IsData(w.up[0]);
      TailOther(w, client);
      forall o | 0 <= o < p ensures !IsData(t.up[o]) {
        assert t.up[o] == w.up[o + 1];
      }
    }
  }

  /** A refusal is only sent when nothing behind it carries 0. */
  lemma RefusedRestarts(w: World, client: Answers)
    requires Honest(client) && Resyncable(w) && w.up != []
    requires exists g :: g in Tail(w, client) && Refuses(g)
    ensures Restarted(Take(w, client)) && |Tail(w, client)| == 1
  {
    if !IsData(w.up[0]) {
      TailOther(w, client);
      assert false;
    }
    TailData(w, client);
    assert w.up[0].hdr.number != w.dev.rx by {
      if w.up[0].hdr.number == w.dev.rx {
        TailBenign(w, client);
      }
    }
    assert !Unrefusable(w, 0);
    var t := Take(w, client);
    forall f | f in t.up ensures !CarriesZero(f) {
      var q :| 0 <= q < |t.up| && t.up[q] == f;
      assert t.up[q] == w.up[q + 1];
    }
  }

  lemma TakeResyncable(w: World, client: Answers)
    requires Honest(client) && Resyncable(w)
    ensures Resyncable(Take(w, client))
  {
    if w.up != [] {
      PairsAfterTake(w, client);
      TakeTail(w, client);
      var t, tail := Take(w, client), Tail(w, client);
      forall i | 0 <= i < |t.down| && Refuses(t.down[i]) ensures ClearedAt(t, i) {
        if i < |w.down| {
          assert ClearedAt(w, i);
          RestartedTake(w, client);
          forall j | i < j < |t.down| ensures Tells(t.down[j], 0) {
            assert j >= |w.down| ==> t.down[j] in tail;
          }
        } else {
          assert t.down[i] in tail;
          RefusedRestarts(w, client);
        }
      }
    }
  }

  lemma LoseUpResyncable(w: World, at: nat)
    requires Resyncable(w)
    ensures Resyncable(w.(up := Without(w.up, at)))
  {
    var t := w.(up := Without(w.up, at));
    WithoutIndex(w.up, at);
    forall p, q | 0 <= p < q < |t.up| && IsData(t.up[p]) && CarriesZero(t.up[q]) ensures Unrefusable(t, p) {
      var p' := if at < |w.up| && p >= at then p + 1 else p;
      var q' := if at < |w.up| && q >= at then q + 1 else q;
      assert t.up[p] == w.up[p'] && t.up[q] == w.up[q'];
      assert Unrefusable(w, p');
    }
    forall i | 0 <= i < |t.down| && Refuses(t.down[i]) ensures ClearedAt(t, i) {
      assert ClearedAt(w, i);
    }
  }

  lemma ApplyResyncable(w: World, e: Event, client: Answers)
    requires Honest(client) && Fair(e) && Resyncable(w)
    ensures Resyncable(Apply(w, e, client))
  {
    var t := Apply(w, e, client);
    match e
    case DeviceTakes => TakeResyncable(w, client);
    case LoseUp(at) => LoseUpResyncable(w, at);
    case LoseDown(at) =>
      WithoutIndex(w.down, at);
      forall i | 0 <= i < |t.down| && Refuses(t.down[i]) ensures ClearedAt(t, i) {
        assert ClearedAt(w, if at < |w.down| && i >= at then i + 1 else i);
      }
    case ClientEmits(f) =>
      forall i | 0 <= i < |t.down| && Refuses(t.down[i]) ensures ClearedAt(t, i) {
        assert ClearedAt(w, i);
      }
    case DeviceReset =>
      forall p, q | 0 <= p < q < |t.up| && IsData(t.up[p]) && CarriesZero(t.up[q]) ensures Unrefusable(t, p) {
        assert Unrefusable(w, p);
      }
      forall i | 0 <= i < |t.down| && Refuses(t.down[i]) ensures ClearedAt(t, i) {
        assert ClearedAt(w, i);
      }
    case _ =>
  }

  lemma PushOther(w: World, f: Frame)
    requires !IsData(f)
    ensures var t := w.(up := w.up + [f]);
            && (Resyncable(w) ==> Resyncable(t)) && (Cleared(w) ==> Cleared(t))
            && (forall n :: Truthful(w, n) ==> Truthful(t, n))
  {
    var t := w.(up := w.up + [f]);
    DataOfSnoc(w.up, f);
    if Resyncable(w) {
      forall p, q | 0 <= p < q < |t.up| && IsData(t.up[p]) && CarriesZero(t.up[q]) ensures Unrefusable(t, p) {
        assert t.up[p] == w.up[p] && t.up[q] == w.up[q];
        assert Unrefusable(w, p);
      }
      forall i | 0 <= i < |t.down| && Refuses(t.down[i]) ensures ClearedAt(t, i) {
        assert ClearedAt(w, i);
      }
    }
  }

  lemma PopResyncable(w: World)
    requires w.down != [] && Resyncable(w)
    ensures Resyncable(w.(down := w.down[1..])) && (Refuses(w.down[0]) ==> Cleared(w.(down := w.down[1..])))
    ensures Cleared(w) ==> Cleared(w.(down := w.down[1..]))
  {
    var t := w.(down := w.down[1..]);
    forall p, q | 0 <= p < q < |t.up| && IsData(t.up[p]) && CarriesZero(t.up[q]) ensures Unrefusable(t, p) {
      assert Unrefusable(w, p);
    }
    forall i | 0 <= i < |t.down| && Refuses(t.down[i]) ensures ClearedAt(t, i) {
      assert t.down[i] == w.down[i + 1] && ClearedAt(w, i + 1);
    }
    if Refuses(w.down[0]) {
      assert ClearedAt(w, 0);
      forall g | g in t.down ensures Tells(g, 0) {
        var j :| 0 <= j < |t.down| && t.down[j] == g;
        assert g == w.down[j + 1];
      }
    }
  }

  lemma HandedOverResyncable(w: World)
    requires w.down != []
    ensures Resyncable(w) ==> Resyncable(HandedOver(w)) && (Refuses(w.down[0]) ==> Cleared(HandedOver(w)))
    ensures Cleared(w) ==> Cleared(HandedOver(w)) && Tells(w.down[0], 0)
  {
    var t := w.(down := w.down[1..]);
    if Resyncable(w) {
      PopResyncable(w);
    }
    var ack := AutoAck(w.down[0]);
    if ack != [] {
      PushOther(t, ack[0]);
    } else {
      assert t.up + ack == t.up;
    }
  }
}
