/** The acknowledgements that host and device provoke from each other when nobody
sends anything new: the C host acknowledges every data frame it receives, and the
device takes an acknowledgement of type PROTOCOL_INFO for a query. */
module AckTraffic {
  import opened Wire
  import opened Protocol
  import opened Link
  import opened LinkState
  import opened PromptBus

  /** One side handles the oldest frame waiting for it. */
  datatype Hop = HostHop | DeviceHop

  function DoHop(w: World, h: Hop, client: Answers): World {
    match h
    case HostHop => if w.down == [] then w else HandedOver(w)
    case DeviceHop => Take(w, client)
  }

  function DoHops(w: World, hops: seq<Hop>, client: Answers): World {
    if hops == [] then w else DoHop(DoHops(w, hops[..|hops| - 1], client), hops[|hops| - 1], client)
  }

  predicate Acknowledged(f: Frame) {
    AutoAck(f) != []
  }

  predicate AcknowledgedInfo(f: Frame) {
    IsInfo(f) && Acknowledged(f)
  }

  /** No PROTOCOL_INFO frame anywhere, and only acknowledgements on their way up. */
  ghost predicate OnlyAcks(w: World) {
    && (forall f :: f in w.up ==> !IsInfo(f) && !IsData(f))
    && (forall f :: f in w.down ==> !IsInfo(f))
  }

  /** How many of the hops found a frame to handle. */
  function Busy(w: World, hops: seq<Hop>, client: Answers): nat {
    if hops == [] then 0
    else
      var mid := DoHops(w, hops[..|hops| - 1], client);
      Busy(w, hops[..|hops| - 1], client) +
      (match hops[|hops| - 1]
       case HostHop => if mid.down != [] then 1 else 0
       case DeviceHop => if mid.up != [] then 1 else 0)
  }

  /** How many acknowledgements the host sent. */
  function AcksSent(w: World, hops: seq<Hop>, client: Answers): nat {
    if hops == [] then 0
    else
      var mid := DoHops(w, hops[..|hops| - 1], client);
      AcksSent(w, hops[..|hops| - 1], client) +
      (if hops[|hops| - 1].HostHop? && mid.down != [] then |AutoAck(mid.down[0])| else 0)
  }

  lemma HopDiesOut(w: World, h: Hop, client: Answers)
    requires OnlyAcks(w)
    ensures var t := DoHop(w, h, client);
            && OnlyAcks(t) && t.dev == w.dev
            && (h.HostHop? && w.down != [] ==>
                  && 2 * |t.down| + |t.up| < 2 * |w.down| + |w.up|
                  && |AutoAck(w.down[0])| + CountIf(t.down, Acknowledged) == CountIf(w.down, Acknowledged))
            && (h.DeviceHop? && w.up != [] ==> t.down == w.down && |t.up| == |w.up| - 1)
  {
    if h.HostHop? && w.down != [] {
      assert w.down[0] in w.down;
      CountFirst(w.down, Acknowledged);
    } else if h.DeviceHop? && w.up != [] {
      assert w.up[0] in w.up;
      assert w.down + [] + [] == w.down;
    }
  }

  /** Every schedule dies out: device frames of other types cost the host exactly one
      acknowledgement each, those are dropped without touching the device, and the
      number of hops that find anything to do is bounded by what was there. */
  lemma {:induction false} AcksDieOut(w: World, hops: seq<Hop>, client: Answers)
    requires OnlyAcks(w)
    ensures var t := DoHops(w, hops, client);
            && OnlyAcks(t) && t.dev == w.dev
            && Busy(w, hops, client) + 2 * |t.down| + |t.up| <= 2 * |w.down| + |w.up|
            && AcksSent(w, hops, client) + CountIf(t.down, Acknowledged) == CountIf(w.down, Acknowledged)
  {
    if hops != [] {
      AcksDieOut(w, hops[..|hops| - 1], client);
      HopDiesOut(DoHops(w, hops[..|hops| - 1], client), hops[|hops| - 1], client);
    }
  }

  /** Frames that keep a PROTOCOL_INFO exchange alive: one on its way up is answered,
      an answer on its way down is acknowledged. */
  function Tokens(w: World): nat {
    CountIf(w.up, IsInfo) + CountIf(w.down, AcknowledgedInfo)
  }

  lemma HostHopTokens(w: World)
    requires w.down != [] && AllWired(w)
    ensures AllWired(HandedOver(w)) && Tokens(HandedOver(w)) == Tokens(w)
  {
    var ack := AutoAck(w.down[0]);
    CountFirst(w.down, AcknowledgedInfo);
    CountAppend(w.up, ack, IsInfo);
    assert ack != [] ==> ack[..0] == [];
  }

  lemma DeviceHopTokens(w: World, client: Answers)
    requires w.up != [] && AllWired(w) && Honest(client)
    ensures AllWired(Take(w, client)) && Tokens(Take(w, client)) == Tokens(w)
  {
    TakeAllWired(w, client);
    TakeTail(w, client);
    CountFirst(w.up, IsInfo);
    CountAppend(w.down, Tail(w, client), AcknowledgedInfo);
    InfoTail(w, client);
  }

  lemma TakeAllWired(w: World, client: Answers)
    requires w.up != [] && AllWired(w)
    ensures AllWired(Take(w, client))
  {
    assert w.up[0] in w.up;
    var t := Take(w, client);
    assert t.up == w.up[1..] && t.dev == React(w.dev, w.up[0]).dev;
    assert forall f :: f in t.up ==> f in w.up;
  }

  /** A PROTOCOL_INFO frame provokes one frame that provokes another, others none. */
  lemma InfoTail(w: World, client: Answers)
    requires w.up != [] && AllWired(w) && Honest(client)
    ensures CountIf(Tail(w, client), AcknowledgedInfo) == if IsInfo(w.up[0]) then 1 else 0
  {
    var f, tail := w.up[0], Tail(w, client);
    if IsInfo(f) {
      assert tail == [InfoResponse(w.dev)] && tail[..0] == [];
    } else {
      forall g | g in client(f) ensures Benign(g) {
      }
      CountNone(tail, AcknowledgedInfo);
    }
  }

  /** For PROTOCOL_INFO the exchange never ends: in every schedule the number of frames
      that provoke another one stays what it was, so an answered query keeps host and
      device answering each other for as long as nothing is lost. */
  lemma {:induction false} InfoNeverDiesOut(w: World, hops: seq<Hop>, client: Answers)
    requires AllWired(w) && Honest(client)
    ensures var t := DoHops(w, hops, client);
            && AllWired(t) && Tokens(t) == Tokens(w)
            && (Tokens(w) > 0 ==> t.up != [] || t.down != [])
  {
    if hops != [] {
      InfoNeverDiesOut(w, hops[..|hops| - 1], client);
      var mid := DoHops(w, hops[..|hops| - 1], client);
      match hops[|hops| - 1]
      case HostHop =>
        if mid.down != [] {
          HostHopTokens(mid);
        }
      case DeviceHop =>
        if mid.up != [] {
          DeviceHopTokens(mid, client);
        }
    }
  }

  // ---------------------------------------------------------------- when it ends

  /** An upper bound on what the frames on their way up can still cause. */
  function Cost(up: seq<Frame>, client: Answers): nat {
    if up == [] then 0
    else
      var f := up[|up| - 1];
      Cost(up[..|up| - 1], client) + 1 + (if IsData(f) then 2 + 2 * |client(f)| else 0)
  }

  lemma {:induction false} CostAppend(a: seq<Frame>, b: seq<Frame>, client: Answers)
    ensures Cost(a + b, client) == Cost(a, client) + Cost(b, client)
  {
    if b == [] {
      assert a + b == a;
    } else {
      assert (a + b)[..|a + b| - 1] == a + b[..|b| - 1];
      CostAppend(a, b[..|b| - 1], client);
    }
  }

  function Work(w: World, client: Answers): nat {
    2 * |w.down| + Cost(w.up, client)
  }

  lemma HostHopWorks(w: World, client: Answers)
    requires w.down != []
    ensures Work(HandedOver(w), client) < Work(w, client)
  {
    var ack := AutoAck(w.down[0]);
    CostAppend(w.up, ack, client);
    if ack != [] {
      assert ack[..0] == [];
    }
  }

  lemma DeviceHopWorks(w: World, client: Answers)
    requires w.up != [] && Tokens(w) == 0
    ensures Work(Take(w, client), client) < Work(w, client)
  {
    var f := w.up[0];
    CountFirst(w.up, IsInfo);
    TakeTail(w, client);
    assert w.up == [f] + w.up[1..] && [f][..0] == [];
    CostAppend([f], w.up[1..], client);
    assert |Tail(w, client)| <= if IsData(f) then 1 + |client(f)| else 0;
  }

  lemma BusyStep(w: World, hops: seq<Hop>, h: Hop, client: Answers)
    ensures DoHops(w, hops + [h], client) == DoHop(DoHops(w, hops, client), h, client)
    ensures var mid := DoHops(w, hops, client);
            Busy(w, hops + [h], client) ==
            Busy(w, hops, client) + if (if h.HostHop? then mid.down else mid.up) != [] then 1 else 0
  {
    assert (hops + [h])[..|hops|] == hops;
  }

  lemma {:induction false} BusyBounded(w: World, hops: seq<Hop>, client: Answers)
    requires AllWired(w) && Honest(client) && Tokens(w) == 0
    ensures Busy(w, hops, client) + Work(DoHops(w, hops, client), client) <= Work(w, client)
  {
    if hops != [] {
      var init, last := hops[..|hops| - 1], hops[|hops| - 1];
      BusyBounded(w, init, client);
      InfoNeverDiesOut(w, init, client);
      var mid := DoHops(w, init, client);
      if last.HostHop? && mid.down != [] {
        HostHopWorks(mid, client);
      } else if last.DeviceHop? && mid.up != [] {
        DeviceHopWorks(mid, client);
      }
    }
  }

  lemma {:induction false} BusyForEver(w: World, n: nat, client: Answers) returns (hops: seq<Hop>)
    requires AllWired(w) && Honest(client) && Tokens(w) > 0
    ensures Busy(w, hops, client) == n
    decreases n
  {
    hops := [];
    if n > 0 {
      hops := BusyForEver(w, n - 1, client);
      InfoNeverDiesOut(w, hops, client);
      var h := if DoHops(w, hops, client).down != [] then HostHop else DeviceHop;
      BusyStep(w, hops, h, client);
      hops := hops + [h];
    }
  }

  /** However the two sides take turns, at most `bound` frames are handled. */
  ghost predicate DiesOut(w: World, bound: nat, client: Answers) {
    forall hops :: Busy(w, hops, client) <= bound
  }

  /** Whatever is in flight, commands included, host and device fall silent if and only
      if no PROTOCOL_INFO frame is on its way up and no answer to one on its way down. */
  lemma DiesOutIff(w: World, client: Answers)
    requires AllWired(w) && Honest(client)
    ensures (exists bound :: DiesOut(w, bound, client)) <==> Tokens(w) == 0
  {
    if Tokens(w) == 0 {
      forall hops ensures Busy(w, hops, client) <= Work(w, client) {
        BusyBounded(w, hops, client);
      }
      assert DiesOut(w, Work(w, client), client);
    } else {
      forall bound: nat ensures !DiesOut(w, bound, client) {
        var hops := BusyForEver(w, bound + 1, client);
      }
    }
  }

  /** The answer to a single query already is such a frame. */
  lemma AnsweredQueryIsToken(w: World, q: Frame, client: Answers)
    requires w.up == [q] && w.down == [] && IsInfo(q) && !w.dev.stuck
    ensures Tokens(Take(w, client)) == 1
  {
    var d := [InfoResponse(w.dev)];
    assert Take(w, client).up == [] && Take(w, client).down == d;
    CountFirst(d, AcknowledgedInfo);
    assert d[1..] == [];
  }

  /** `n` times: the host acknowledges, the device answers. */
  function Rounds(n: nat): seq<Hop> {
    if n == 0 then [] else Rounds(n - 1) + [HostHop, DeviceHop]
  }

  /** An exchange in which the answer of device `d` is the only frame in flight. */
  ghost function Exchange(d: Device): World {
    World([], [InfoResponse(d)], d.(tx := Next(d.tx)))
  }

  lemma OneRound(d: Device, client: Answers)
    requires !d.stuck
    ensures DoHop(DoHop(Exchange(d), HostHop, client), DeviceHop, client) == Exchange(d.(tx := Next(d.tx)))
  {
    var w := DoHop(Exchange(d), HostHop, client);
    var ack := Ack(TYPE_PROTOCOL_INFO, d.tx, NO_ERROR, false);
    assert w == World([ack], [], d.(tx := Next(d.tx)));
    assert React(w.dev, ack) == Reaction(w.dev.(tx := Next(w.dev.tx)), [InfoResponse(w.dev)]);
    assert [] + [InfoResponse(w.dev)] + [] == [InfoResponse(w.dev)];
  }

  lemma DoHopsTwo(w: World, hops: seq<Hop>, a: Hop, b: Hop, client: Answers)
    ensures DoHops(w, hops + [a, b], client) == DoHop(DoHop(DoHops(w, hops, client), a, client), b, client)
  {
    var first := hops + [a];
    DoHopsNext(w, hops, a, client);
    DoHopsNext(w, first, b, client);
    assert first + [b] == hops + [a, b];
  }

  lemma DoHopsNext(w: World, hops: seq<Hop>, h: Hop, client: Answers)
    ensures DoHops(w, hops + [h], client) == DoHop(DoHops(w, hops, client), h, client)
  {
    assert (hops + [h])[..|hops|] == hops;
  }

  /** For every `n` there is a run with `n` further answers, each carrying the next
      transmit number. */
  lemma {:induction false} EndlessAnswers(d: Device, client: Answers, n: nat)
    requires !d.stuck
    ensures DoHops(Exchange(d), Rounds(n), client) == Exchange(d.(tx := Advance(d.tx, n)))
  {
    var e := d.(tx := Advance(d.tx, n));
    NumberAfter(d, n);
    if n > 0 {
      var before := d.(tx := Advance(d.tx, n - 1));
      EndlessAnswers(d, client, n - 1);
      NextRound(Exchange(d), before, Rounds(n - 1), client);
      assert before.(tx := Next(before.tx)) == e;
    } else {
      assert e == d;
    }
  }

  lemma NextRound(w: World, e: Device, hops: seq<Hop>, client: Answers)
    requires !e.stuck && DoHops(w, hops, client) == Exchange(e)
    ensures DoHops(w, hops + [HostHop, DeviceHop], client) == Exchange(e.(tx := Next(e.tx)))
  {
    DoHopsTwo(w, hops, HostHop, DeviceHop, client);
    OneRound(e, client);
  }

  lemma NumberAfter(d: Device, n: nat)
    ensures n == 0 ==> d.(tx := Advance(d.tx, n)) == d
    ensures n > 0 ==> d.(tx := Next(Advance(d.tx, n - 1))) == d.(tx := Advance(d.tx, n))
  {
    if n > 0 {
      AdvanceNext(d.tx, n - 1);
    } else {
      AdvanceTwice(d.tx, 0);
    }
  }
}
