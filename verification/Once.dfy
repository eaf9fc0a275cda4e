/** At most once: what a link must look like for a command to be accepted no more than
once, whatever happens on it, even if the host resends it after reading a refusal. */
module Once {
  import opened Wire
  import opened Protocol
  import opened Link

  /** A command the device will not accept, whatever happens before it is taken, unless
      another one is accepted first. */
  predicate Doomed(w: World, f: Frame) {
    f.hdr.number != w.dev.rx && f.hdr.number != 0
  }

  /** Nothing has been accepted since `base`, and nothing in flight will be. */
  ghost predicate Hopeless(w: World, base: seq<Frame>) {
    w.dev.accepted == base && forall f :: f in w.up && IsData(f) ==> Doomed(w, f)
  }

  /** The `p`-th frame on its way is the caller's command, and the newest. */
  ghost predicate Latest(w: World, p: nat, mine: Frame -> bool)
    requires p < |w.up|
  {
    mine(w.up[p]) && forall q :: p < q < |w.up| ==> !IsData(w.up[q])
  }

  /** Nothing has been accepted since `base`, and of the commands in flight only the
      newest has a chance. */
  ghost predicate NotYet(w: World, base: seq<Frame>, mine: Frame -> bool) {
    && w.dev.accepted == base
    && forall p :: 0 <= p < |w.up| && IsData(w.up[p]) ==> Doomed(w, w.up[p]) || Latest(w, p, mine)
  }

  /** One command satisfying `mine` has been accepted since `base`, and none is in flight. */
  ghost predicate Accepted(w: World, base: seq<Frame>, mine: Frame -> bool) {
    && |w.dev.accepted| == |base| + 1 && base <= w.dev.accepted && mine(w.dev.accepted[|base|])
    && (forall f :: f in w.up ==> !IsData(f))
  }

  ghost predicate AtMostOnce(w: World, base: seq<Frame>, mine: Frame -> bool) {
    NotYet(w, base, mine) || Accepted(w, base, mine)
  }

  ghost predicate HasRefusal(down: seq<Frame>) {
    exists f :: f in down && IsRefusal(f)
  }

  /** A refusal read by the host means that nothing in flight will be accepted. */
  ghost predicate RefusalsMean(w: World, base: seq<Frame>) {
    && (forall p, q :: 0 <= p < q < |w.up| && IsData(w.up[p]) && IsData(w.up[q]) ==> w.up[q].hdr.number != 0)
    && (HasRefusal(w.down) ==> Hopeless(w, base))
  }

  // ---------------------------------------------------------------- nothing will be accepted

  lemma ApplyHopeless(w: World, e: Event, client: Answers, base: seq<Frame>)
    requires Hopeless(w, base)
    ensures Hopeless(Apply(w, e, client), base)
  {
    if e.DeviceTakes? && w.up != [] {
      assert w.up[0] in w.up;
    }
  }

  // ---------------------------------------------------------------- at most one

  lemma TakeNotYet(w: World, client: Answers, base: seq<Frame>, mine: Frame -> bool)
    requires NotYet(w, base, mine) && w.up != []
    ensures AtMostOnce(Take(w, client), base, mine)
  {
    var f, t := w.up[0], Take(w, client);
    if t.dev.accepted != base {
      assert Latest(w, 0, mine);
      forall g | g in t.up ensures !IsData(g) {
        var q :| 0 <= q < |t.up| && t.up[q] == g;
        assert g == w.up[q + 1];
      }
    } else {
      forall p | 0 <= p < |t.up| && IsData(t.up[p]) ensures Doomed(t, t.up[p]) || Latest(t, p, mine) {
        assert t.up[p] == w.up[p + 1];
        if Latest(w, p + 1, mine) {
          forall q | p < q < |t.up| ensures !IsData(t.up[q]) {
            assert t.up[q] == w.up[q + 1];
          }
        }
      }
    }
  }

  lemma LoseUpNotYet(w: World, at: nat, base: seq<Frame>, mine: Frame -> bool)
    requires NotYet(w, base, mine)
    ensures NotYet(w.(up := Without(w.up, at)), base, mine)
  {
    var t := w.(up := Without(w.up, at));
    WithoutIndex(w.up, at);
    forall p | 0 <= p < |t.up| && IsData(t.up[p]) ensures Doomed(t, t.up[p]) || Latest(t, p, mine) {
      var p' := if at < |w.up| && p >= at then p + 1 else p;
      assert t.up[p] == w.up[p'];
      if Latest(w, p', mine) {
        forall q | p < q < |t.up| ensures !IsData(t.up[q]) {
          assert t.up[q] == w.up[if at < |w.up| && q >= at then q + 1 else q];
        }
      }
    }
  }

  lemma TakeAccepted(w: World, client: Answers, base: seq<Frame>, mine: Frame -> bool)
    requires Accepted(w, base, mine) && w.up != []
    ensures Accepted(Take(w, client), base, mine)
  {
    assert w.up[0] in w.up;
  }

  /** Whatever happens on the link, at most one command is accepted. */
  lemma ApplyAtMostOnce(w: World, e: Event, client: Answers, base: seq<Frame>, mine: Frame -> bool)
    requires AtMostOnce(w, base, mine)
    ensures AtMostOnce(Apply(w, e, client), base, mine)
  {
    match e
    case DeviceTakes =>
      if w.up != [] {
        if NotYet(w, base, mine) {
          TakeNotYet(w, client, base, mine);
        } else {
          TakeAccepted(w, client, base, mine);
        }
      }
    case LoseUp(at) =>
      if NotYet(w, base, mine) {
        LoseUpNotYet(w, at, base, mine);
      }
    case DeviceReset =>
      var t := Apply(w, e, client);
      if NotYet(w, base, mine) {
        forall p | 0 <= p < |t.up| && IsData(t.up[p]) ensures Doomed(t, t.up[p]) || Latest(t, p, mine) {
          assert Latest(w, p, mine) ==> Latest(t, p, mine);
        }
      }
    case _ =>
      var t := Apply(w, e, client);
      assert t.up == w.up && t.dev == w.dev;
      if NotYet(w, base, mine) {
        forall p | 0 <= p < |t.up| && IsData(t.up[p]) ensures Doomed(t, t.up[p]) || Latest(t, p, mine) {
          assert Latest(w, p, mine) ==> Latest(t, p, mine);
        }
      }
  }

  // ---------------------------------------------------------------- what a refusal means

  lemma RefusalFromData(w: World, client: Answers, g: Frame)
    requires Honest(client) && w.up != [] && g in Tail(w, client) && IsRefusal(g)
    ensures IsData(w.up[0])
  {
    assert g in client(w.up[0]) ==> Benign(g);
  }

  /** A refused command leaves 0 expected, which nothing behind it carries. */
  lemma TakeRefusal(w: World, client: Answers, base: seq<Frame>, g: Frame)
    requires Honest(client) && RefusalsMean(w, base) && w.dev.accepted == base && w.up != []
    requires g in Tail(w, client) && IsRefusal(g)
    ensures Hopeless(Take(w, client), base)
  {
    var f, t := w.up[0], Take(w, client);
    assert IsData(f) && t.dev.rx == 0 && t.dev.accepted == base by {
      assert g in client(f) ==> Benign(g);
    }
    forall x | x in t.up && IsData(x) ensures Doomed(t, x) {
      var q :| 0 <= q < |t.up| && t.up[q] == x;
      assert x == w.up[q + 1];
    }
  }

  lemma TakeRefusalsMean(w: World, client: Answers, base: seq<Frame>, mine: Frame -> bool)
    requires Honest(client) && AtMostOnce(w, base, mine) && RefusalsMean(w, base) && w.up != []
    ensures RefusalsMean(Take(w, client), base)
  {
    var t := Take(w, client);
    TakeTail(w, client);
    forall p, q | 0 <= p < q < |t.up| && IsData(t.up[p]) && IsData(t.up[q]) ensures t.up[q].hdr.number != 0 {
      assert t.up[p] == w.up[p + 1] && t.up[q] == w.up[q + 1];
    }
    if HasRefusal(t.down) {
      var g :| g in t.down && IsRefusal(g);
      if g in w.down {
        ApplyHopeless(w, DeviceTakes, client, base);
      } else {
        RefusalFromData(w, client, g);
        assert w.up[0] in w.up;
        TakeRefusal(w, client, base, g);
      }
    }
  }

  lemma ApplyRefusalsMean(w: World, e: Event, client: Answers, base: seq<Frame>, mine: Frame -> bool)
    requires Honest(client) && (e.ClientEmits? ==> Benign(e.frame))
    requires AtMostOnce(w, base, mine) && RefusalsMean(w, base)
    ensures RefusalsMean(Apply(w, e, client), base)
  {
    if e.DeviceTakes? && w.up != [] {
      TakeRefusalsMean(w, client, base, mine);
    } else {
      var t := Apply(w, e, client);
      WithoutIndex(w.up, if e.LoseUp? then e.at else |w.up|);
      forall p, q | 0 <= p < q < |t.up| && IsData(t.up[p]) && IsData(t.up[q]) ensures t.up[q].hdr.number != 0 {
        var out := if e.LoseUp? then e.at else |w.up|;
        var p' := if out < |w.up| && p >= out then p + 1 else p;
        var q' := if out < |w.up| && q >= out then q + 1 else q;
        assert t.up[p] == w.up[p'] && t.up[q] == w.up[q'];
      }
      if HasRefusal(t.down) {
        var g :| g in t.down && IsRefusal(g);
        assert g in w.down;
        ApplyHopeless(w, e, client, base);
      }
    }
  }

  /** Both together, over any number of events and the read that may end a wait. */
  ghost predicate Watched(w: World, base: seq<Frame>, mine: Frame -> bool) {
    AtMostOnce(w, base, mine) && RefusalsMean(w, base)
  }

  lemma {:induction false} ApplyAllWatched(
    w: World, events: seq<Event>, client: Answers, base: seq<Frame>, mine: Frame -> bool)
    requires Honest(client) && HonestEvents(events)
    ensures var t := ApplyAll(w, events, client);
            && (Watched(w, base, mine) ==> Watched(t, base, mine))
            && (AtMostOnce(w, base, mine) ==> AtMostOnce(t, base, mine))
            && (Hopeless(w, base) ==> Hopeless(t, base))
  {
    if events != [] {
      var n := |events| - 1;
      assert events[n] in events;
      assert forall e :: e in events[..n] ==> e in events;
      ApplyAllWatched(w, events[..n], client, base, mine);
      var mid := ApplyAll(w, events[..n], client);
      if AtMostOnce(mid, base, mine) {
        ApplyAtMostOnce(mid, events[n], client, base, mine);
        if RefusalsMean(mid, base) {
          ApplyRefusalsMean(mid, events[n], client, base, mine);
        }
      }
      if Hopeless(mid, base) {
        ApplyHopeless(mid, events[n], client, base);
      }
    }
  }

  /** What is read, or dropped by a drain, does not matter to what is in flight upwards. */
  lemma FewerDown(w: World, down: seq<Frame>, base: seq<Frame>, mine: Frame -> bool)
    requires forall f :: f in down ==> f in w.down
    ensures var t := w.(down := down);
            && (Watched(w, base, mine) ==> Watched(t, base, mine))
            && (AtMostOnce(w, base, mine) ==> AtMostOnce(t, base, mine))
            && (Hopeless(w, base) ==> Hopeless(t, base))
  {
    var t := w.(down := down);
    assert forall p :: 0 <= p < |w.up| && Latest(w, p, mine) ==> Latest(t, p, mine);
    if NotYet(w, base, mine) {
      forall p | 0 <= p < |t.up| && IsData(t.up[p]) ensures Doomed(t, t.up[p]) || Latest(t, p, mine) {
        assert Doomed(w, w.up[p]) ==> Doomed(t, t.up[p]);
      }
    }
  }

  /** Waiting keeps all three, and a refusal read under watch leaves no hope. */
  lemma AwaitedWatched(w: World, script: seq<Event>, client: Answers, base: seq<Frame>, mine: Frame -> bool)
    requires Honest(client) && HonestEvents(script)
    ensures var a := Awaited(w, script, client);
            && HonestEvents(a.script)
            && (Watched(w, base, mine) ==>
                  Watched(a.w, base, mine) && (a.got.Some? && IsRefusal(a.got.value) ==> Hopeless(a.w, base)))
            && (AtMostOnce(w, base, mine) ==> AtMostOnce(a.w, base, mine))
            && (Hopeless(w, base) ==> Hopeless(a.w, base))
  {
    var events := AwaitedIsWaited(w, script, client);
    ApplyAllWatched(w, events, client, base, mine);
    var a, mid := Awaited(w, script, client), ApplyAll(w, events, client);
    if a.got.Some? {
      assert mid.down == [a.got.value] + a.w.down;
      FewerDown(mid, a.w.down, base, mine);
    }
  }

  /** Sending the caller's command behind commands that are doomed. */
  lemma PushCommand(w: World, f: Frame, base: seq<Frame>, mine: Frame -> bool)
    requires Hopeless(w, base) && mine(f)
    ensures AtMostOnce(w.(up := w.up + [f]), base, mine)
  {
    var t := w.(up := w.up + [f]);
    forall p | 0 <= p < |t.up| && IsData(t.up[p]) ensures Doomed(t, t.up[p]) || Latest(t, p, mine) {
      if p < |w.up| {
        assert t.up[p] == w.up[p] && w.up[p] in w.up;
      }
    }
  }

  lemma PushOther(w: World, f: Frame, base: seq<Frame>)
    requires Hopeless(w, base) && !IsData(f)
    ensures Hopeless(w.(up := w.up + [f]), base)
  {
  }

  /** The condition on what is in flight when command `c` is sent. */
  ghost predicate Unambiguous(w: World, c: Frame) {
    && (forall f :: f in w.up && IsData(f) ==> Doomed(w, f) && c.hdr.number != 0)
    && (HasRefusal(w.down) ==> Doomed(w, c))
  }

  lemma PushWatched(w: World, c: Frame, mine: Frame -> bool)
    requires Unambiguous(w, c) && mine(c)
    ensures Watched(w.(up := w.up + [c]), w.dev.accepted, mine)
  {
    var base, t := w.dev.accepted, w.(up := w.up + [c]);
    PushCommand(w, c, base, mine);
    forall p, q | 0 <= p < q < |t.up| && IsData(t.up[p]) && IsData(t.up[q]) ensures t.up[q].hdr.number != 0 {
      assert t.up[p] == w.up[p] && w.up[p] in w.up;
      assert q < |w.up| ==> t.up[q] == w.up[q] && w.up[q] in w.up;
    }
  }
}
