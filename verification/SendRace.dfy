/** Several threads in `bus_send` or `bus_request`. A thread reads its number, then loads
the counter, stores the next number and only then takes the transmit mutex, and
nothing keeps other threads out in between. */
module SendRace {
  import opened Wire
  import opened Protocol
  import opened HostBus

  /** How far a thread has come since it read its number. */
  datatype Stage = HasRead | HasLoaded(value: nibble) | HasStored

  /** A frame with its number. `order` counts the reads before this one, and `lag` says by
      how much the number read was behind that count. */
  datatype Ticket = Ticket(frame: Frame, order: nat, lag: nibble, stage: Stage)

  /** `held` are the frames not yet transmitted, in the order in which their numbers were
      read, and `wire` those transmitted. */
  datatype Race = Race(start: nibble, tx: nibble, count: nat, held: seq<Ticket>, wire: seq<Ticket>)

  /** `at` is the place of the thread among those that hold a number. */
  datatype RaceStep =
    | ReadNumber(typ: nibble, payload: seq<byte>)
    | LoadCounter(at: nat)
    | StoreNext(at: nat)
    | GetMutex(at: nat)

  function Begin(start: nibble): Race {
    Race(start, start, 0, [], [])
  }

  /** By how much the counter is behind the numbers read. */
  function Lag(r: Race): nibble {
    (r.start + r.count - r.tx) % 16
  }

  function WithoutTicket(s: seq<Ticket>, at: nat): seq<Ticket>
    requires at < |s|
  {
    s[..at] + s[at + 1..]
  }

  /** The step is one its thread can take. */
  predicate Enabled(r: Race, step: RaceStep) {
    match step
    case ReadNumber(_, _) => true
    case LoadCounter(at) => at < |r.held| && r.held[at].stage.HasRead?
    case StoreNext(at) => at < |r.held| && r.held[at].stage.HasLoaded?
    case GetMutex(at) => at < |r.held| && r.held[at].stage.HasStored?
  }

  function Step1(r: Race, step: RaceStep): Race {
    if !Enabled(r, step) then r
    else match step
      case ReadNumber(t, p) =>
        r.(count := r.count + 1, held := r.held + [Ticket(Outgoing(t, r.tx, p), r.count, Lag(r), HasRead)])
      case LoadCounter(at) => r.(held := r.held[at := r.held[at].(stage := HasLoaded(r.tx))])
      case StoreNext(at) =>
        r.(tx := Next(r.held[at].stage.value), held := r.held[at := r.held[at].(stage := HasStored)])
      case GetMutex(at) => r.(held := WithoutTicket(r.held, at), wire := r.wire + [r.held[at]])
  }

  function Steps(r: Race, steps: seq<RaceStep>): Race {
    if steps == [] then r else Step1(Steps(r, steps[..|steps| - 1]), steps[|steps| - 1])
  }

  function FramesOf(tickets: seq<Ticket>): (fs: seq<Frame>)
    ensures |fs| == |tickets|
    ensures forall k :: 0 <= k < |tickets| ==> fs[k] == tickets[k].frame
  {
    seq(|tickets|, k requires 0 <= k < |tickets| => tickets[k].frame)
  }

  /** How many tickets were read before the `o`-th read. */
  function Below(s: seq<Ticket>, o: nat): nat {
    if s == [] then 0 else Below(s[..|s| - 1], o) + (if s[|s| - 1].order < o then 1 else 0)
  }

  /** How many were read after it. */
  function Above(s: seq<Ticket>, o: nat): nat {
    if s == [] then 0 else Above(s[..|s| - 1], o) + (if s[|s| - 1].order > o then 1 else 0)
  }

  // ---------------------------------------------------------------- counting

  lemma {:induction false} BelowAppend(a: seq<Ticket>, b: seq<Ticket>, o: nat)
    ensures Below(a + b, o) == Below(a, o) + Below(b, o)
  {
    if b == [] {
      assert a + b == a;
    } else {
      assert (a + b)[..|a + b| - 1] == a + b[..|b| - 1];
      BelowAppend(a, b[..|b| - 1], o);
    }
  }

  lemma BelowOne(t: Ticket, o: nat)
    ensures Below([t], o) == if t.order < o then 1 else 0
  {
    assert [t][..0] == [];
  }

  lemma {:induction false} AboveAndBelow(s: seq<Ticket>, o: nat)
    ensures Above(s, o) + Below(s, o + 1) == |s|
  {
    if s != [] {
      AboveAndBelow(s[..|s| - 1], o);
    }
  }

  lemma BelowSplit(s: seq<Ticket>, at: nat, o: nat)
    requires at < |s|
    ensures Below(s, o) == Below(s[..at], o) + (if s[at].order < o then 1 else 0) + Below(s[at + 1..], o)
  {
    assert s == s[..at] + ([s[at]] + s[at + 1..]);
    BelowAppend(s[..at], [s[at]] + s[at + 1..], o);
    BelowAppend([s[at]], s[at + 1..], o);
    BelowOne(s[at], o);
  }

  ghost predicate Sorted(s: seq<Ticket>) {
    forall i, j :: 0 <= i < j < |s| ==> s[i].order < s[j].order
  }

  /** When exactly the first `n` tickets were read before the `o`-th read. */
  lemma {:induction false} BelowCut(s: seq<Ticket>, n: nat, o: nat)
    requires n <= |s|
    requires (forall i :: 0 <= i < n ==> s[i].order < o) && (forall i :: n <= i < |s| ==> s[i].order >= o)
    ensures Below(s, o) == n
  {
    if s != [] {
      var k := |s| - 1;
      BelowCut(s[..k], if n <= k then n else k, o);
    }
  }

  /** In a sorted sequence a ticket's place is the number of earlier reads. */
  lemma BelowPlace(s: seq<Ticket>, at: nat)
    requires Sorted(s) && at < |s|
    ensures Below(s, s[at].order + 1) == at + 1
  {
    BelowCut(s, at + 1, s[at].order + 1);
  }

  // ---------------------------------------------------------------- what every step keeps

  /** The number read is `lag` behind the count of reads. */
  ghost predicate Numbered(start: nibble, t: Ticket) {
    Advance(t.frame.hdr.number, t.lag) == Advance(start, t.order)
  }

  ghost predicate Fits(r: Race) {
    && Sorted(r.held)
    && (forall i :: 0 <= i < |r.held| ==> r.held[i].order < r.count && Numbered(r.start, r.held[i]))
    && (forall i :: 0 <= i < |r.wire| ==> r.wire[i].order < r.count)
    && (forall o :: 0 <= o <= r.count ==> Below(r.held, o) + Below(r.wire, o) == o)
  }

  /** One more read: the counts below every place, and the one above all. */
  lemma ReadCounts(r: Race, n: Ticket, o: nat)
    requires Fits(r) && n.order == r.count && o <= r.count + 1
    ensures Below(r.held + [n], o) + Below(r.wire, o) == o
  {
    BelowAppend(r.held, [n], o);
    BelowOne(n, o);
    if o == r.count + 1 {
      BelowCut(r.held, |r.held|, r.count);
      BelowCut(r.held, |r.held|, o);
      BelowCut(r.wire, |r.wire|, r.count);
      BelowCut(r.wire, |r.wire|, o);
    }
  }

  lemma ReadFits(r: Race, typ: nibble, payload: seq<byte>)
    requires Fits(r)
    ensures Fits(Step1(r, ReadNumber(typ, payload)))
  {
    var n := Ticket(Outgoing(typ, r.tx, payload), r.count, Lag(r), HasRead);
    LagNumbers(r.start, r.tx, r.count);
    assert Numbered(r.start, n);
    forall o: nat | o <= r.count + 1 ensures Below(r.held + [n], o) + Below(r.wire, o) == o {
      ReadCounts(r, n, o);
    }
    assert Step1(r, ReadNumber(typ, payload)).held == r.held + [n];
  }

  lemma LagNumbers(start: nibble, tx: nibble, count: nat)
    ensures Advance(tx % 16, (start + count - tx) % 16) == Advance(start, count)
  {
    var x: int := start + count;
    var q, m := (x - tx) / 16, (x - tx) % 16;
    assert x - tx == 16 * q + m && tx % 16 == tx;
    assert tx + m == x - 16 * q;
    ModShift(x, -q);
  }

  lemma ModShift(x: int, q: int)
    ensures (x + 16 * q) % 16 == x % 16
  {
    ModUnique(x + 16 * q, x / 16 + q, x % 16);
  }

  lemma ModUnique(x: int, q: int, m: int)
    requires x == 16 * q + m && 0 <= m < 16
    ensures x % 16 == m
  {
  }

  /** A thread moves on: its ticket stays where it is. */
  lemma StageFits(r: Race, at: nat, stage: Stage)
    requires Fits(r) && at < |r.held|
    ensures Fits(r.(held := r.held[at := r.held[at].(stage := stage)]))
  {
    var held := r.held[at := r.held[at].(stage := stage)];
    forall o: nat | o <= r.count ensures Below(held, o) + Below(r.wire, o) == o {
      BelowSplit(held, at, o);
      BelowSplit(r.held, at, o);
      assert held[..at] == r.held[..at] && held[at + 1..] == r.held[at + 1..];
    }
  }

  /** A ticket moves from `held` to `wire`. */
  lemma MoveCounts(held: seq<Ticket>, wire: seq<Ticket>, at: nat, o: nat)
    requires at < |held|
    ensures Below(WithoutTicket(held, at), o) + Below(wire + [held[at]], o) == Below(held, o) + Below(wire, o)
  {
    BelowSplit(held, at, o);
    BelowAppend(held[..at], held[at + 1..], o);
    BelowAppend(wire, [held[at]], o);
    BelowOne(held[at], o);
  }

  lemma MutexFits(r: Race, at: nat)
    requires Fits(r) && Enabled(r, GetMutex(at))
    ensures Fits(Step1(r, GetMutex(at)))
  {
    var t := Step1(r, GetMutex(at));
    WithoutPlaces(r.held, at);
    forall o | 0 <= o <= t.count ensures Below(t.held, o) + Below(t.wire, o) == o {
      MoveCounts(r.held, r.wire, at, o);
    }
  }

  lemma WithoutPlaces(s: seq<Ticket>, at: nat)
    requires at < |s|
    ensures |WithoutTicket(s, at)| == |s| - 1
    ensures forall i :: 0 <= i < |s| - 1 ==> WithoutTicket(s, at)[i] == s[if i < at then i else i + 1]
  {
  }

  lemma StepFits(r: Race, step: RaceStep)
    requires Fits(r)
    ensures Fits(Step1(r, step)) && Step1(r, step).start == r.start
  {
    if Enabled(r, step) {
      match step
      case ReadNumber(t, p) => ReadFits(r, t, p);
      case LoadCounter(at) => StageFits(r, at, HasLoaded(r.tx));
      case StoreNext(at) => StageFits(r, at, HasStored);
      case GetMutex(at) => MutexFits(r, at);
    }
  }

  // ---------------------------------------------------------------- the exact condition

  /** The thread given the mutex overtakes as many earlier readers as its number is behind,
      not counting the later readers that overtook it, modulo 16. */
  ghost predicate Balanced(r: Race, at: nat)
    requires at < |r.held|
  {
    (at - Above(r.wire, r.held[at].order)) % 16 == r.held[at].lag
  }

  /** Where on the wire the ticket goes. */
  lemma PlaceOnWire(r: Race, at: nat)
    requires Fits(r) && at < |r.held|
    ensures |r.wire| == r.held[at].order - at + Above(r.wire, r.held[at].order)
  {
    var o := r.held[at].order;
    BelowPlace(r.held, at);
    AboveAndBelow(r.wire, o);
    assert Below(r.held, o + 1) + Below(r.wire, o + 1) == o + 1;
  }

  lemma BalancedNumber(number: nibble, lag: nibble, start: nibble, order: nat, at: nat, above: nat, place: nat)
    requires Advance(number, lag) == Advance(start, order) && place == order - at + above
    ensures number == Advance(start, place) <==> (at - above) % 16 == lag
  {
    var x: int, y: int := number + lag, start + order;
    var d: int := at - above;
    assert start + place == y - d;
    var qx, qy, m := x / 16, y / 16, x % 16;
    assert x == 16 * qx + m && y == 16 * qy + m;
    var e := lag - d;
    assert start + place - number == 16 * (qy - qx) + e;
    SameRest(start + place, number, qy - qx, e);
    SameRest(d, lag, 0, -e);
  }

  /** Two numbers that differ by `e` beyond a multiple of 16 are equal modulo 16 iff it is one. */
  lemma SameRest(a: int, n: nibble, q: int, e: int)
    requires a - n == 16 * q + e
    ensures a % 16 == n <==> e % 16 == 0
    ensures (-e) % 16 == 0 <==> e % 16 == 0
  {
    var k := e / 16;
    assert e == 16 * k + e % 16;
    if e % 16 == 0 {
      ModUnique(a, q + k, n);
      ModUnique(-e, -k, 0);
    }
    if a % 16 == n {
      ModUnique(e, a / 16 - q, 0);
    }
    if (-e) % 16 == 0 {
      ModUnique(e, -((-e) / 16), 0);
    }
  }

  /** A transmitted number is the one the device expects iff the grant is balanced. */
  lemma GrantIff(r: Race, at: nat)
    requires Fits(r) && at < |r.held|
    ensures r.held[at].frame.hdr.number == Advance(r.start, |r.wire|) <==> Balanced(r, at)
  {
    var t := r.held[at];
    PlaceOnWire(r, at);
    BalancedNumber(t.frame.hdr.number, t.lag, r.start, t.order, at, Above(r.wire, t.order), |r.wire|);
  }

  /** The `k`-th step gives the mutex to a thread. */
  ghost predicate Grants(r: Race, steps: seq<RaceStep>, k: nat) {
    k < |steps| && steps[k].GetMutex? && Enabled(Steps(r, steps[..k]), steps[k])
  }

  ghost predicate AllBalanced(r: Race, steps: seq<RaceStep>) {
    forall k :: 0 <= k < |steps| && Grants(r, steps, k) ==> Balanced(Steps(r, steps[..k]), steps[k].at)
  }

  lemma WireSnoc(wire: seq<Ticket>, t: Ticket, start: nibble)
    ensures CountsUp(FramesOf(wire + [t]), start, |wire| + 1) <==>
            CountsUp(FramesOf(wire), start, |wire|) && t.frame.hdr.number == Advance(start, |wire|)
  {
    var fs, gs := FramesOf(wire), FramesOf(wire + [t]);
    assert forall k :: 0 <= k < |wire| ==> gs[k] == fs[k];
    assert gs[|wire|] == t.frame;
  }

  lemma {:induction false} RaceIff(start: nibble, steps: seq<RaceStep>)
    ensures var t := Steps(Begin(start), steps);
            && Fits(t) && t.start == start
            && (CountsUp(FramesOf(t.wire), start, |t.wire|) <==> AllBalanced(Begin(start), steps))
  {
    var r := Begin(start);
    if steps != [] {
      var n := |steps| - 1;
      var init, last, mid := steps[..n], steps[n], Steps(r, steps[..n]);
      RaceIff(start, init);
      StepFits(mid, last);
      PrefixBalanced(r, steps);
      if last.GetMutex? && Enabled(mid, last) {
        WireSnoc(mid.wire, mid.held[last.at], start);
        GrantIff(mid, last.at);
      }
    }
  }

  lemma PrefixBalanced(r: Race, steps: seq<RaceStep>)
    requires steps != []
    ensures var n := |steps| - 1;
            AllBalanced(r, steps) <==>
            AllBalanced(r, steps[..n]) && (Grants(r, steps, n) ==> Balanced(Steps(r, steps[..n]), steps[n].at))
  {
    var n := |steps| - 1;
    var init := steps[..n];
    assert forall k :: 0 <= k <= n ==> init[..k] == steps[..k];
    assert forall k :: 0 <= k < n ==> (Grants(r, init, k) <==> Grants(r, steps, k));
  }

  /** Any number of threads, interleaved in any way, with a device that expects the first
      number: it accepts everything on the wire if and only if every grant of the mutex
      was balanced. */
  lemma SendersExactIff(d: Device, steps: seq<RaceStep>)
    requires !d.stuck && AllWiredData(d, FramesOf(Steps(Begin(d.rx), steps).wire))
    ensures var wire := FramesOf(Steps(Begin(d.rx), steps).wire);
            ReactAll(d, wire).dev.accepted == d.accepted + wire <==> AllBalanced(Begin(d.rx), steps)
  {
    RaceIff(d.rx, steps);
    AllAcceptedIff(d, FramesOf(Steps(Begin(d.rx), steps).wire));
  }

  // ---------------------------------------------------------------- the mutex keeps the order

  /** The mutex was always given to the thread that read its number first. */
  ghost predicate MutexInOrder(r: Race, steps: seq<RaceStep>) {
    forall k :: 0 <= k < |steps| && Grants(r, steps, k) ==> steps[k].at == 0
  }

  /** No number that reached the wire was read while the counter was behind. */
  ghost predicate NoneLagged(r: Race, steps: seq<RaceStep>) {
    forall k :: 0 <= k < |steps| && Grants(r, steps, k) ==> Steps(r, steps[..k]).held[steps[k].at].lag == 0
  }

  /** Nobody who still holds a number has been overtaken. */
  ghost predicate NoneOvertaken(r: Race) {
    forall i, j :: 0 <= i < |r.wire| && 0 <= j < |r.held| ==> r.wire[i].order < r.held[j].order
  }

  lemma {:induction false} AboveNone(s: seq<Ticket>, o: nat)
    requires forall i :: 0 <= i < |s| ==> s[i].order < o
    ensures Above(s, o) == 0
  {
    if s != [] {
      AboveNone(s[..|s| - 1], o);
    }
  }

  lemma BalancedPlainly(r: Race, at: nat)
    requires NoneOvertaken(r) && at < |r.held|
    ensures Balanced(r, at) <==> at % 16 == r.held[at].lag
  {
    AboveNone(r.wire, r.held[at].order);
  }

  lemma StepNoneOvertaken(r: Race, step: RaceStep)
    requires Fits(r) && NoneOvertaken(r) && (step.GetMutex? && Enabled(r, step) ==> step.at == 0)
    ensures NoneOvertaken(Step1(r, step))
  {
    if Enabled(r, step) && step.GetMutex? {
      WithoutPlaces(r.held, 0);
    }
  }

  lemma PrefixSteps(r: Race, steps: seq<RaceStep>)
    requires steps != []
    ensures var n := |steps| - 1;
            forall k :: 0 <= k < n ==>
              && steps[..n][..k] == steps[..k] && steps[..n][k] == steps[k]
              && (Grants(r, steps[..n], k) <==> Grants(r, steps, k))
  {
    var init := steps[..|steps| - 1];
    assert forall k :: 0 <= k < |init| ==> init[..k] == steps[..k];
  }

  lemma {:induction false} InOrderInvariant(start: nibble, steps: seq<RaceStep>)
    requires MutexInOrder(Begin(start), steps)
    ensures NoneOvertaken(Steps(Begin(start), steps))
  {
    if steps != [] {
      var r, n := Begin(start), |steps| - 1;
      PrefixSteps(r, steps);
      InOrderInvariant(start, steps[..n]);
      RaceIff(start, steps[..n]);
      assert steps[n].GetMutex? && Enabled(Steps(r, steps[..n]), steps[n]) ==> Grants(r, steps, n);
      StepNoneOvertaken(Steps(r, steps[..n]), steps[n]);
    }
  }

  lemma {:induction false} InOrderBefore(r: Race, steps: seq<RaceStep>, k: nat)
    requires MutexInOrder(r, steps) && k <= |steps|
    ensures MutexInOrder(r, steps[..k])
  {
    assert forall j :: 0 <= j < k ==> steps[..k][..j] == steps[..j];
    assert forall j :: 0 <= j < k && Grants(r, steps[..k], j) ==> Grants(r, steps, j);
  }

  /** When the mutex keeps the order of the reads, in any interleaving otherwise: the device
      accepts everything on the wire if and only if no number was read while the
      counter was behind, that is between another thread's read and its store, or after a
      store that was overwritten. */
  lemma OrderedSendersIff(d: Device, steps: seq<RaceStep>)
    requires !d.stuck && AllWiredData(d, FramesOf(Steps(Begin(d.rx), steps).wire))
    requires MutexInOrder(Begin(d.rx), steps)
    ensures var wire := FramesOf(Steps(Begin(d.rx), steps).wire);
            ReactAll(d, wire).dev.accepted == d.accepted + wire <==> NoneLagged(Begin(d.rx), steps)
  {
    var r := Begin(d.rx);
    SendersExactIff(d, steps);
    forall k | 0 <= k < |steps| && Grants(r, steps, k)
      ensures var mid := Steps(r, steps[..k]);
              Balanced(mid, steps[k].at) <==> mid.held[steps[k].at].lag == 0
    {
      InOrderBefore(r, steps, k);
      InOrderInvariant(d.rx, steps[..k]);
      BalancedPlainly(Steps(r, steps[..k]), steps[k].at);
    }
  }

  // ---------------------------------------------------------------- numbers taken one at a time

  /** No thread reads its number between another's read and its store. */
  ghost predicate Undisturbed(r: Race, steps: seq<RaceStep>) {
    forall k :: 0 <= k < |steps| && steps[k].ReadNumber? ==> AllStored(Steps(r, steps[..k]).held)
  }

  ghost predicate AllStored(held: seq<Ticket>) {
    forall i :: 0 <= i < |held| ==> held[i].stage.HasStored?
  }

  /** At no time do more than 16 threads hold a number. */
  ghost predicate FewHold(r: Race, steps: seq<RaceStep>) {
    forall k :: 0 <= k <= |steps| ==> |Steps(r, steps[..k]).held| <= 16
  }

  /** At most one thread is on its way from read to store, and the counter is behind by
      exactly that one. */
  ghost predicate OneAtATime(r: Race) {
    && (forall i :: 0 <= i < |r.held| ==>
          r.held[i].lag == 0 && (r.held[i].stage.HasLoaded? ==> r.held[i].stage.value == r.tx))
    && (forall i, j :: 0 <= i < j < |r.held| ==> r.held[i].stage.HasStored? || r.held[j].stage.HasStored?)
    && Lag(r) == if AllStored(r.held) then 0 else 1
  }

  lemma LagSteps(start: nibble, count: nat, tx: nibble)
    ensures var lag := (start + count - tx) % 16;
            && (lag == 0 ==> (start + (count + 1) - tx) % 16 == 1)
            && (lag == 1 ==> (start + count - Next(tx)) % 16 == 0)
  {
    var x: int := start + count - tx;
    var q := x / 16;
    assert x == 16 * q + x % 16;
    if x % 16 == 0 {
      ModUnique(x + 1, q, 1);
    } else if x % 16 == 1 {
      ModUnique(start + count - Next(tx), if tx == 15 then q + 1 else q, 0);
    }
  }

  lemma ReadOneAtATime(r: Race, typ: nibble, payload: seq<byte>)
    requires OneAtATime(r) && AllStored(r.held)
    ensures OneAtATime(Step1(r, ReadNumber(typ, payload)))
  {
    LagSteps(r.start, r.count, r.tx);
    var t := Step1(r, ReadNumber(typ, payload));
    assert !t.held[|r.held|].stage.HasStored?;
  }

  lemma StoreOneAtATime(r: Race, at: nat)
    requires OneAtATime(r) && Enabled(r, StoreNext(at))
    ensures OneAtATime(Step1(r, StoreNext(at)))
  {
    LagSteps(r.start, r.count, r.tx);
    var t := Step1(r, StoreNext(at));
    assert !r.held[at].stage.HasStored?;
    assert AllStored(t.held);
  }

  lemma LoadOneAtATime(r: Race, at: nat)
    requires OneAtATime(r) && Enabled(r, LoadCounter(at))
    ensures OneAtATime(Step1(r, LoadCounter(at)))
  {
    var t := Step1(r, LoadCounter(at));
    assert !r.held[at].stage.HasStored? && !t.held[at].stage.HasStored?;
  }

  lemma MutexOneAtATime(r: Race, at: nat)
    requires OneAtATime(r) && Enabled(r, GetMutex(at))
    ensures OneAtATime(Step1(r, GetMutex(at)))
  {
    var t := Step1(r, GetMutex(at));
    WithoutPlaces(r.held, at);
    if AllStored(t.held) {
      forall i | 0 <= i < |r.held| ensures r.held[i].stage.HasStored? {
        assert i != at ==> r.held[i] == t.held[if i < at then i else i - 1];
      }
    }
  }

  lemma {:induction false} UndisturbedInvariant(start: nibble, steps: seq<RaceStep>)
    requires Undisturbed(Begin(start), steps)
    ensures OneAtATime(Steps(Begin(start), steps))
  {
    var r := Begin(start);
    if steps != [] {
      var n := |steps| - 1;
      var last, mid := steps[n], Steps(r, steps[..n]);
      PrefixSteps(r, steps);
      UndisturbedInvariant(start, steps[..n]);
      if Enabled(mid, last) {
        match last
        case ReadNumber(t, p) => ReadOneAtATime(mid, t, p);
        case LoadCounter(at) => LoadOneAtATime(mid, at);
        case StoreNext(at) => StoreOneAtATime(mid, at);
        case GetMutex(at) => MutexOneAtATime(mid, at);
      }
    }
  }

  /** With numbers taken one at a time and nobody overtaken so far, the next grant is
      balanced iff it keeps the order. */
  lemma NextGrant(r: Race, at: nat)
    requires NoneOvertaken(r) && OneAtATime(r) && at < |r.held| <= 16
    ensures Balanced(r, at) <==> at == 0
  {
    BalancedPlainly(r, at);
  }

  lemma PrefixInOrder(r: Race, steps: seq<RaceStep>)
    requires steps != []
    ensures var n := |steps| - 1;
            && (MutexInOrder(r, steps) <==> MutexInOrder(r, steps[..n]) && (Grants(r, steps, n) ==> steps[n].at == 0))
            && (Undisturbed(r, steps) ==> Undisturbed(r, steps[..n]))
            && (FewHold(r, steps) ==> FewHold(r, steps[..n]) && |Steps(r, steps[..n]).held| <= 16)
  {
    var init := steps[..|steps| - 1];
    PrefixSteps(r, steps);
    assert init[..|init|] == init;
    assert forall k :: 0 <= k <= |init| ==> init[..k] == steps[..k];
  }

  lemma {:induction false} BalancedInOrder(start: nibble, steps: seq<RaceStep>)
    requires Undisturbed(Begin(start), steps) && FewHold(Begin(start), steps)
    ensures AllBalanced(Begin(start), steps) <==> MutexInOrder(Begin(start), steps)
  {
    if steps != [] {
      var r, n := Begin(start), |steps| - 1;
      PrefixInOrder(r, steps);
      BalancedInOrder(start, steps[..n]);
      PrefixBalanced(r, steps);
      if MutexInOrder(r, steps[..n]) && Grants(r, steps, n) {
        InOrderInvariant(start, steps[..n]);
        UndisturbedInvariant(start, steps[..n]);
        NextGrant(Steps(r, steps[..n]), steps[n].at);
      }
    }
  }

  /** When numbers are taken one at a time and at most 16 threads hold one, the device
      accepts everything on the wire if and only if the mutex kept the order of the
      numbers. */
  lemma SendersInStepIff(d: Device, steps: seq<RaceStep>)
    requires !d.stuck && AllWiredData(d, FramesOf(Steps(Begin(d.rx), steps).wire))
    requires Undisturbed(Begin(d.rx), steps) && FewHold(Begin(d.rx), steps)
    ensures var wire := FramesOf(Steps(Begin(d.rx), steps).wire);
            ReactAll(d, wire).dev.accepted == d.accepted + wire <==> MutexInOrder(Begin(d.rx), steps)
  {
    SendersExactIff(d, steps);
    BalancedInOrder(d.rx, steps);
  }

  // ---------------------------------------------------------------- runs that go wrong

  /** The same number twice within 16 frames always draws a refusal. */
  lemma EqualNumbersRefused(d: Device, frames: seq<Frame>, i: nat, j: nat)
    requires !d.stuck && AllWiredData(d, frames)
    requires i < j < |frames| && j - i < 16 && frames[i].hdr.number == frames[j].hdr.number
    ensures ReactAll(d, frames).dev.accepted != d.accepted + frames
  {
    AllAcceptedIff(d, frames);
    AdvanceApart(d.rx, i, j);
    assert frames[i].hdr.number != Advance(d.rx, i) || frames[j].hdr.number != Advance(d.rx, j);
  }

  lemma AdvanceApart(start: nibble, i: nat, j: nat)
    requires i < j < i + 16
    ensures Advance(start, i) != Advance(start, j)
  {
    var q, m := (start + i) / 16, (start + i) % 16;
    assert start + i == 16 * q + m;
    var n := m + j - i;
    ModUnique(start + j, if n < 16 then q else q + 1, if n < 16 then n else n - 16);
  }

  lemma StepsSnoc(r: Race, steps: seq<RaceStep>, step: RaceStep)
    ensures Steps(r, steps + [step]) == Step1(Steps(r, steps), step)
  {
    assert (steps + [step])[..|steps|] == steps;
  }

  lemma FourSteps(r: Race, steps: seq<RaceStep>, a: RaceStep, b: RaceStep, c: RaceStep, d: RaceStep)
    ensures Steps(r, steps + [a] + [b] + [c] + [d]) == Step1(Step1(Step1(Step1(Steps(r, steps), a), b), c), d)
  {
    StepsSnoc(r, steps, a);
    StepsSnoc(r, steps + [a], b);
    StepsSnoc(r, steps + [a] + [b], c);
    StepsSnoc(r, steps + [a] + [b] + [c], d);
  }

  /** Two threads hold a number, and only the first has stored. */
  ghost predicate SecondBehind(r: Race) {
    |r.held| == 2 && r.wire == [] && r.held[0].stage == HasStored && r.held[1].stage == HasRead
  }

  lemma TwoReaders(start: nibble, f: RaceStep, g: RaceStep)
    requires f.ReadNumber? && g.ReadNumber?
    ensures var r := Steps(Begin(start), [] + [f] + [g] + [LoadCounter(0)] + [StoreNext(0)]);
            && SecondBehind(r) && r.held[0].frame == Outgoing(f.typ, start, f.payload)
            && r.held[1].frame == Outgoing(g.typ, start, g.payload)
  {
    FourSteps(Begin(start), [], f, g, LoadCounter(0), StoreNext(0));
  }

  /** The second stores too, and both transmit in order. */
  lemma BothTransmit(r: Race)
    requires SecondBehind(r)
    ensures FramesOf(Step1(Step1(Step1(Step1(r, LoadCounter(1)), StoreNext(1)), GetMutex(0)), GetMutex(0)).wire) ==
            [r.held[0].frame, r.held[1].frame]
  {
    var stored := Step1(Step1(r, LoadCounter(1)), StoreNext(1));
    assert stored.held == [r.held[0], r.held[1].(stage := HasStored)];
    var first := Step1(stored, GetMutex(0));
    assert first.held == [stored.held[1]] && first.wire == [r.held[0]];
  }

  lemma ThenBothTransmit(r: Race, steps: seq<RaceStep>)
    requires SecondBehind(Steps(r, steps))
    ensures FramesOf(Steps(r, steps + [LoadCounter(1)] + [StoreNext(1)] + [GetMutex(0)] + [GetMutex(0)]).wire) ==
            [Steps(r, steps).held[0].frame, Steps(r, steps).held[1].frame]
  {
    FourSteps(r, steps, LoadCounter(1), StoreNext(1), GetMutex(0), GetMutex(0));
    BothTransmit(Steps(r, steps));
  }

  /** Two threads read before either stores: the mutex keeps their order, both frames carry
      the same number, and the second is refused. */
  lemma SameNumberTwice(d: Device, typ: nibble, p: seq<byte>, q: seq<byte>)
    requires !d.stuck && typ in d.wired && typ != TYPE_PROTOCOL_INFO
    requires 0 < |p| <= MAX_PAYLOAD_LEN && 0 < |q| <= MAX_PAYLOAD_LEN
    ensures var steps := [] + [ReadNumber(typ, p)] + [ReadNumber(typ, q)] + [LoadCounter(0)] + [StoreNext(0)] +
                         [LoadCounter(1)] + [StoreNext(1)] + [GetMutex(0)] + [GetMutex(0)];
            var wire := FramesOf(Steps(Begin(d.rx), steps).wire);
            && wire == [Outgoing(typ, d.rx, p), Outgoing(typ, d.rx, q)]
            && ReactAll(d, wire).dev.accepted != d.accepted + wire
  {
    var r, f, g := Begin(d.rx), ReadNumber(typ, p), ReadNumber(typ, q);
    TwoReaders(d.rx, f, g);
    ThenBothTransmit(r, [] + [f] + [g] + [LoadCounter(0)] + [StoreNext(0)]);
    EqualNumbersRefused(d, [Outgoing(typ, d.rx, p), Outgoing(typ, d.rx, q)], 0, 1);
  }

  /** Numbers taken one at a time, but the second to read is the first to transmit. */
  lemma OvertakenSenderRefused(d: Device, typ: nibble, p: seq<byte>, q: seq<byte>)
    requires !d.stuck && typ in d.wired && typ != TYPE_PROTOCOL_INFO
    requires 0 < |p| <= MAX_PAYLOAD_LEN && 0 < |q| <= MAX_PAYLOAD_LEN
    ensures var steps := [ReadNumber(typ, p)] + [LoadCounter(0)] + [StoreNext(0)] + [ReadNumber(typ, q)] +
                         [LoadCounter(1)] + [StoreNext(1)] + [GetMutex(1)];
            var wire := FramesOf(Steps(Begin(d.rx), steps).wire);
            && wire == [Outgoing(typ, Next(d.rx), q)]
            && React(d, wire[0]).replies == [Ack(typ, d.rx, INCORRECT_SEQUENCE_NUMBER, true)]
  {
    var r0 := Begin(d.rx);
    var r1 := Step1(r0, ReadNumber(typ, p));
    var r2 := Step1(r1, LoadCounter(0));
    var r3 := Step1(r2, StoreNext(0));
    var r4 := Step1(r3, ReadNumber(typ, q));
    var r5 := Step1(r4, LoadCounter(1));
    var r6 := Step1(r5, StoreNext(1));
    var s1 := [ReadNumber(typ, p)];
    var s2 := s1 + [LoadCounter(0)];
    var s3 := s2 + [StoreNext(0)];
    var s4 := s3 + [ReadNumber(typ, q)];
    var s5 := s4 + [LoadCounter(1)];
    var s6 := s5 + [StoreNext(1)];
    StepsSnoc(r0, [], ReadNumber(typ, p));
    assert [] + s1 == s1;
    StepsSnoc(r0, s1, LoadCounter(0));
    StepsSnoc(r0, s2, StoreNext(0));
    StepsSnoc(r0, s3, ReadNumber(typ, q));
    StepsSnoc(r0, s4, LoadCounter(1));
    StepsSnoc(r0, s5, StoreNext(1));
    StepsSnoc(r0, s6, GetMutex(1));
    assert r3.tx == Next(d.rx) && r6.held[1].frame == Outgoing(typ, Next(d.rx), q);
    assert FramesOf(Step1(r6, GetMutex(1)).wire) == [Outgoing(typ, Next(d.rx), q)];
  }
}
