/** Building blocks for particular runs of a link. */
module Runs {
  import opened Wire
  import opened Protocol
  import opened Link

  /** Losses, restarts and device steps: what can happen without the host or a client. */
  ghost predicate Quiet(events: seq<Event>) {
    forall e :: e in events ==> e.DeviceTakes? || e.LoseUp? || e.LoseDown? || e.DeviceReset?
  }

  ghost predicate Reach(w: World, events: seq<Event>, w': World, client: Answers) {
    Quiet(events) && ApplyAll(w, events, client) == w'
  }

  lemma Then(w: World, a: seq<Event>, mid: World, b: seq<Event>, w': World, client: Answers)
    requires Reach(w, a, mid, client) && Reach(mid, b, w', client)
    ensures Reach(w, a + b, w', client)
  {
    ApplyAllAppend(w, a, b, client);
  }

  lemma One(w: World, e: Event, client: Answers)
    requires Quiet([e])
    ensures Reach(w, [e], Apply(w, e, client), client)
  {
    Snoc(w, [], e, client);
    assert [] + [e] == [e];
  }

  lemma {:induction false} LoseOldest(w: World, k: nat, client: Answers) returns (events: seq<Event>)
    requires k <= |w.up|
    ensures Reach(w, events, w.(up := w.up[k..]), client)
    decreases k
  {
    events := [];
    if k > 0 {
      var t := w.(up := w.up[1..]);
      assert Apply(w, LoseUp(0), client) == t;
      One(w, LoseUp(0), client);
      var more := LoseOldest(t, k - 1, client);
      assert t.up[k - 1..] == w.up[k..];
      Then(w, [LoseUp(0)], t, more, w.(up := w.up[k..]), client);
      events := [LoseUp(0)] + more;
    }
  }

  lemma {:induction false} LoseNextDown(w: World, k: nat, client: Answers) returns (events: seq<Event>)
    requires k <= |w.down|
    ensures Reach(w, events, w.(down := w.down[k..]), client)
    decreases k
  {
    events := [];
    if k > 0 {
      var t := w.(down := w.down[1..]);
      assert Apply(w, LoseDown(0), client) == t;
      One(w, LoseDown(0), client);
      var more := LoseNextDown(t, k - 1, client);
      assert t.down[k - 1..] == w.down[k..];
      Then(w, [LoseDown(0)], t, more, w.(down := w.down[k..]), client);
      events := [LoseDown(0)] + more;
    }
  }

  lemma {:induction false} ScriptedSkips(w: World, events: seq<Event>, rest: seq<Event>, client: Answers)
    requires Quiet(events)
    ensures Scripted(w, events + rest, client) == Scripted(ApplyAll(w, events, client), rest, client)
    decreases |events|
  {
    if events == [] {
      assert events + rest == rest;
    } else {
      var e := events[0];
      assert e in events && forall x :: x in events[1..] ==> x in events;
      assert (events + rest)[1..] == events[1..] + rest;
      ScriptedSkips(Apply(w, e, client), events[1..], rest, client);
      One(w, e, client);
      ApplyAllAppend(w, [e], events[1..], client);
      assert [e] + events[1..] == events;
    }
  }

  lemma {:induction false} WiredKept(w: World, events: seq<Event>, client: Answers)
    ensures ApplyAll(w, events, client).dev.wired == w.dev.wired
  {
    if events != [] {
      WiredKept(w, events[..|events| - 1], client);
    }
  }
}
