/** Streams of `bus_send` from one thread: host and device stay in step for ever. */
module Streaming {
  import opened Wire
  import opened Protocol
  import opened Link
  import opened LinkState
  import opened HostBus

  /** A host that streams with `bus_send` while the link and its own receiver run. */
  datatype SendStep =
    | Push(typ: nibble, payload: seq<byte>)
    | Receive
    | Happens(event: Event)

  datatype Sender = Sender(w: World, tx: nibble)

  ghost predicate Allowed(s: SendStep, wired: set<nibble>) {
    match s
    case Push(t, p) => t in wired && t != TYPE_PROTOCOL_INFO && 0 < |p| <= MAX_PAYLOAD_LEN
    case Receive => true
    case Happens(e) => KeepsStep(e) && Fair(e)
  }

  function Do(s: Sender, step: SendStep, client: Answers): Sender {
    match step
    case Push(t, p) => Sender(s.w.(up := s.w.up + [Outgoing(t, s.tx, p)]), Next(s.tx))
    case Receive => if s.w.down == [] then s else s.(w := HandedOver(s.w))
    case Happens(e) => s.(w := Apply(s.w, e, client))
  }

  function Run(s: Sender, steps: seq<SendStep>, client: Answers): Sender {
    if steps == [] then s else Do(Run(s, steps[..|steps| - 1], client), steps[|steps| - 1], client)
  }

  function PushedByStep(tx: nibble, step: SendStep): seq<Frame> {
    match step
    case Push(t, p) => [Outgoing(t, tx, p)]
    case _ => []
  }

  /** The frames a stream pushes, numbered from `tx` on modulo 16. */
  function PushedBy(tx: nibble, steps: seq<SendStep>): seq<Frame> {
    if steps == [] then []
    else
      var before := PushedBy(tx, steps[..|steps| - 1]);
      before + PushedByStep(Advance(tx, |before|), steps[|steps| - 1])
  }

  /** What was pushed, by number and payload. */
  ghost predicate NumberedFrom(frames: seq<Frame>, tx: nibble, pushed: seq<SendStep>) {
    && |frames| == |pushed|
    && forall k :: 0 <= k < |frames| ==>
         pushed[k].Push? && Carries(frames[k], pushed[k].typ, Advance(tx, k), pushed[k].payload)
  }

  function Pushes(steps: seq<SendStep>): seq<SendStep> {
    if steps == [] then []
    else Pushes(steps[..|steps| - 1]) + (if steps[|steps| - 1].Push? then [steps[|steps| - 1]] else [])
  }

  lemma {:induction false} PushedNumbered(tx: nibble, steps: seq<SendStep>)
    ensures NumberedFrom(PushedBy(tx, steps), tx, Pushes(steps))
  {
    if steps != [] {
      PushedNumbered(tx, steps[..|steps| - 1]);
    }
  }

  lemma PushKeeps(s: Sender, t: nibble, p: seq<byte>, client: Answers)
    requires InStep(s.w, s.tx) && Allowed(Push(t, p), s.w.dev.wired)
    ensures var u := Do(s, Push(t, p), client);
            InStep(u.w, u.tx) && Commands(u.w) == Commands(s.w) + [Outgoing(t, s.tx, p)]
  {
    OutgoingShape(t, s.tx, p);
    PushInStep(s.w, Outgoing(t, s.tx, p));
  }

  lemma StepKeeps(s: Sender, step: SendStep, client: Answers)
    requires Honest(client) && InStep(s.w, s.tx) && Allowed(step, s.w.dev.wired)
    ensures var t := Do(s, step, client);
            && InStep(t.w, t.tx) && t.w.dev.wired == s.w.dev.wired
            && Commands(t.w) == Commands(s.w) + PushedByStep(s.tx, step)
            && t.tx == if step.Push? then Next(s.tx) else s.tx
  {
    match step
    case Push(t, p) => PushKeeps(s, t, p, client);
    case Receive =>
      assert Commands(s.w) + [] == Commands(s.w);
      if s.w.down != [] {
        HandedOverInStep(s.w, s.tx);
      }
    case Happens(e) =>
      assert Commands(s.w) + [] == Commands(s.w);
      ApplyInStep(s.w, e, client, s.tx);
  }

  lemma PushedGrows(base: seq<Frame>, start: nibble, before: seq<Frame>, step: SendStep)
    ensures var now := PushedByStep(Advance(start, |before|), step);
            && (base + before) + now == base + (before + now)
            && Advance(start, |before + now|) ==
               if step.Push? then Next(Advance(start, |before|)) else Advance(start, |before|)
  {
    AdvanceNext(start, |before|);
  }

  /** A stream of any length, with any interleaving of receiving, acknowledging, device
      steps, asynchronous client frames and downward losses: the two sides stay in step,
      so nothing is ever refused, and what the device has accepted followed by what is
      in flight is exactly what was pushed, in order. */
  lemma {:induction false} StreamNeverRefused(s: Sender, steps: seq<SendStep>, client: Answers)
    requires Honest(client) && InStep(s.w, s.tx)
    requires forall t :: t in steps ==> Allowed(t, s.w.dev.wired)
    ensures var t := Run(s, steps, client);
            && InStep(t.w, t.tx) && t.w.dev.wired == s.w.dev.wired
            && Commands(t.w) == Commands(s.w) + PushedBy(s.tx, steps)
            && t.tx == Advance(s.tx, |PushedBy(s.tx, steps)|)
            && NumberedFrom(Commands(t.w)[|Commands(s.w)|..], s.tx, Pushes(steps))
  {
    PushedNumbered(s.tx, steps);
    if steps == [] {
      assert Commands(s.w) + [] == Commands(s.w);
    } else {
      var n := |steps| - 1;
      assert steps[n] in steps && forall t :: t in steps[..n] ==> t in steps;
      StreamNeverRefused(s, steps[..n], client);
      var before := PushedBy(s.tx, steps[..n]);
      StepKeeps(Run(s, steps[..n], client), steps[n], client);
      PushedGrows(Commands(s.w), s.tx, before, steps[n]);
    }
  }
}
