/** How a request of the C host ends, said of the frames handed to it. */
module BusOutcome {
  import opened Wire
  import opened Protocol
  import opened Link
  import opened LinkState
  import opened HostBus

  /** What decides a request, said of the bytes that arrive. The error of an answer or of
      a response is not looked at. */
  lemma DecisiveBytes(f: Frame, b: seq<byte>, typ: nibble)
    requires WellFormed(f) && b == FrameBytes(f)
    ensures Refuses(f) <==> b[0] / 64 == 1 && b[2] == b[3] == 0
    ensures IsAnswer(f) <==> b[0] % 16 == 7 && b[2] == 0 && b[3] == 4
    ensures IsResponse(f, typ) <==> b[0] % 16 == typ && (b[2] != 0 || b[3] != 0)
  {
    PackByte(f.hdr.error, f.hdr.host, f.hdr.noAck, f.hdr.typ);
  }

  // ---------------------------------------------------------------- resynchronisation

  /** What the host knows of the device. */
  datatype Known = Known(tx: byte, mask: word)

  function KnownTo(h: BusState): Known {
    Known(h.tx, h.mask)
  }

  /** What `bus_sync` makes of the frames handed to it, with `tries` queries allowed and
      `queries` sent: the first answer is the last frame handed over. Version 1 is
      success and gives mask and counter, any other an error; without an answer every
      query is sent, and then it times out. */
  ghost predicate Consulted(read: seq<Frame>, tries: nat, queries: int, r: Errno, was: Known, now: Known) {
    && (forall k :: 0 <= k < |read| - 1 ==> !IsAnswer(read[k])) && |read| <= queries <= tries
    && if read == [] || !IsAnswer(read[|read| - 1]) then r == TimedOut && queries == tries && now == was
       else
         var p := read[|read| - 1].payload;
         if p[0] == 1 then r == Zero && now.tx == p[3] && now.mask == p[1] as int + p[2] as int * 256
         else r == NotSupported && now == was
  }

  lemma ConsultedLater(got: seq<Frame>, read: seq<Frame>, tries: nat, queries: int, r: Errno, was: Known, now: Known)
    requires |got| <= 1 && (got != [] ==> !IsAnswer(got[0])) && Consulted(read, tries, queries, r, was, now)
    ensures Consulted(got + read, tries + 1, queries + 1, r, was, now)
  {
    var all := got + read;
    assert forall k :: |got| <= k < |all| ==> all[k] == read[k - |got|];
    assert read != [] ==> all[|all| - 1] == read[|read| - 1];
  }

  /** One attempt. */
  lemma AttemptDecided(h: BusState, client: Answers) returns (got: seq<Frame>)
    ensures var a := SyncAttempt(h, client);
            && a.host.handed == h.handed + got && a.host.queries == h.queries + 1 && |got| <= 1
            && (a.done <==> got != [] && IsAnswer(got[0]))
            && (a.done ==> Consulted(got, 1, 1, a.r, KnownTo(h), KnownTo(a.host)))
            && (!a.done ==> KnownTo(a.host) == KnownTo(h))
  {
    var n := HandOver(Queried(h), client);
    got := if n.got.Some? then [n.got.value] else [];
  }

  lemma ConsultedOnce(got: seq<Frame>, tries: nat, r: Errno, was: Known, now: Known)
    requires tries > 0 && got != [] && IsAnswer(got[|got| - 1]) && Consulted(got, 1, 1, r, was, now)
    ensures Consulted(got, tries, 1, r, was, now)
  {
  }

  lemma SyncedLater(h: BusState, got: seq<Frame>, a: BusState, more: seq<Frame>, tries: nat, s: SyncResult)
    requires |got| <= 1 && (got != [] ==> !IsAnswer(got[0])) && a.handed == h.handed + got
    requires a.queries == h.queries + 1 && KnownTo(a) == KnownTo(h) && s.host.handed == a.handed + more
    requires Consulted(more, tries, s.host.queries - a.queries, s.r, KnownTo(a), KnownTo(s.host))
    ensures s.host.handed == h.handed + (got + more)
    ensures Consulted(got + more, tries + 1, s.host.queries - h.queries, s.r, KnownTo(h), KnownTo(s.host))
  {
    ConsultedLater(got, more, tries, s.host.queries - a.queries, s.r, KnownTo(h), KnownTo(s.host));
    Associative(h.handed, got, more);
  }

  lemma {:induction false} SyncDecided(h: BusState, client: Answers, tries: nat) returns (read: seq<Frame>)
    ensures var s := Sync(h, client, tries);
            && s.host.handed == h.handed + read
            && Consulted(read, tries, s.host.queries - h.queries, s.r, KnownTo(h), KnownTo(s.host))
    decreases tries
  {
    read := [];
    if tries > 0 {
      var a := SyncAttempt(h, client);
      read := AttemptDecided(h, client);
      SyncUnfold(h, client, tries, a);
      if a.done {
        ConsultedOnce(read, tries, a.r, KnownTo(h), KnownTo(a.host));
      } else {
        var more := SyncDecided(a.host, client, tries - 1);
        SyncedLater(h, read, a.host, more, tries - 1, Sync(a.host, client, tries - 1));
        read := read + more;
      }
    }
  }

  // ---------------------------------------------------------------- the wait loop

  /** Frames that the wait loop passes over. */
  predicate PassedOver(f: Frame, typ: nibble) {
    !Refuses(f) && !IsResponse(f, typ)
  }

  /** The frames handed over up to a refusal, behind it to `bus_sync`, and how that ended. */
  datatype Transcript = Transcript(before: seq<Frame>, refusal: Option<Frame>, asked: seq<Frame>, synced: Errno)

  function All(l: Transcript): seq<Frame> {
    l.before + Log(l.refusal) + l.asked
  }

  /** Without a refusal the first response ends the wait and its payload is returned;
      without one it times out, or goes on exactly if all `frames` frames it was watched
      for have come. A refusal ends it with a timeout, and `bus_sync` decides what
      becomes of counter and mask. */
  ghost predicate Decided(l: Transcript, frames: nat, typ: nibble, was: Known, sent: nat, q: RequestResult) {
    var queries, n := q.host.queries - sent, |l.before|;
    match l.refusal
    case None =>
      && l.asked == [] && n <= frames && queries == 0 && !q.resynced && KnownTo(q.host) == was
      && (forall k :: 0 <= k < n - 1 ==> PassedOver(l.before[k], typ)) && (n > 0 ==> !Refuses(l.before[n - 1]))
      && if n > 0 && IsResponse(l.before[n - 1], typ) then q.r == Zero && q.response == l.before[n - 1].payload
         else q.r == (if n == frames then StillWaiting else TimedOut) && q.response == []
    case Some(f) =>
      && Refuses(f) && n < frames && (forall k :: 0 <= k < n ==> PassedOver(l.before[k], typ))
      && q.r == TimedOut && q.response == [] && (q.resynced <==> l.synced == Zero)
      && Consulted(l.asked, 4, queries, l.synced, was, KnownTo(q.host))
  }

  lemma DecidedLater(f: Frame, l: Transcript, frames: nat, typ: nibble, was: Known, sent: nat, q: RequestResult)
    requires PassedOver(f, typ) && Decided(l, frames, typ, was, sent, q)
    ensures Decided(l.(before := [f] + l.before), frames + 1, typ, was, sent, q)
    ensures All(l.(before := [f] + l.before)) == [f] + All(l)
  {
    var all := [f] + l.before;
    assert forall k :: 1 <= k < |all| ==> all[k] == l.before[k - 1];
  }

  lemma AfterRefusal(h: BusState, n: BusState, f: Frame, typ: nibble, client: Answers, frames: nat)
    requires frames > 0 && HandOver(h, client) == HandOverResult(Some(f), n) && Refuses(f)
    ensures var s := Sync(n, client, SYNC_RETRIES);
            AwaitResponse(h, typ, client, frames) == RequestResult(TimedOut, [], s.r == Zero, s.host)
  {
  }

  lemma RefusalDecided(h: BusState, n: BusState, f: Frame, typ: nibble, client: Answers, frames: nat)
    returns (l: Transcript)
    requires frames > 0 && HandOver(h, client) == HandOverResult(Some(f), n) && Refuses(f)
    ensures var q := AwaitResponse(h, typ, client, frames);
            q.host.handed == h.handed + All(l) && Decided(l, frames, typ, KnownTo(h), h.queries, q)
  {
    AfterRefusal(h, n, f, typ, client, frames);
    var s := Sync(n, client, SYNC_RETRIES);
    var asked := SyncDecided(n, client, SYNC_RETRIES);
    l := Transcript([], Some(f), asked, s.r);
    assert [] + [f] == [f];
    Associative(h.handed, [f], asked);
  }

  lemma HandOverKeeps(h: BusState, client: Answers)
    ensures var n := HandOver(h, client);
            KnownTo(n.host) == KnownTo(h) && n.host.queries == h.queries && n.host.handed == h.handed + Log(n.got)
  {
    assert h.handed + [] == h.handed;
  }

  /** One turn of the loop without a refusal. */
  lemma WaitTurn(h: BusState, typ: nibble, client: Answers, frames: nat, n: HandOverResult)
    requires frames > 0 && n == HandOver(h, client) && (n.got.Some? ==> !Refuses(n.got.value))
    ensures AwaitResponse(h, typ, client, frames) ==
            match n.got
            case None => RequestResult(TimedOut, [], false, n.host)
            case Some(f) =>
              if IsResponse(f, typ) then RequestResult(Zero, f.payload, false, n.host)
              else AwaitResponse(n.host, typ, client, frames - 1)
  {
  }

  lemma PassedOverDecided(h: BusState, f: Frame, n: BusState, l: Transcript, frames: nat, typ: nibble,
                          q: RequestResult)
    requires PassedOver(f, typ) && n.handed == h.handed + [f] && n.queries == h.queries && KnownTo(n) == KnownTo(h)
    requires q.host.handed == n.handed + All(l) && Decided(l, frames, typ, KnownTo(n), n.queries, q)
    ensures var l' := l.(before := [f] + l.before);
            q.host.handed == h.handed + All(l') && Decided(l', frames + 1, typ, KnownTo(h), h.queries, q)
  {
    DecidedLater(f, l, frames, typ, KnownTo(h), h.queries, q);
    Associative(h.handed, [f], All(l));
  }

  /** The wait ends with this turn, in a response or without a frame. */
  lemma LastTurnDecided(h: BusState, typ: nibble, client: Answers, frames: nat, n: HandOverResult)
    returns (l: Transcript)
    requires frames > 0 && n == HandOver(h, client) && (n.got.Some? ==> IsResponse(n.got.value, typ))
    ensures var q := AwaitResponse(h, typ, client, frames);
            q.host.handed == h.handed + All(l) && Decided(l, frames, typ, KnownTo(h), h.queries, q)
  {
    WaitTurn(h, typ, client, frames, n);
    HandOverKeeps(h, client);
    l := Transcript(Log(n.got), None, [], TimedOut);
    assert All(l) == Log(n.got);
  }

  /** This turn passes over its frame, and `later` is what follows. */
  lemma TurnDecided(h: BusState, typ: nibble, client: Answers, frames: nat, n: HandOverResult, later: Transcript)
    returns (l: Transcript)
    requires frames > 0 && n == HandOver(h, client) && n.got.Some? && PassedOver(n.got.value, typ)
    requires var q := AwaitResponse(n.host, typ, client, frames - 1);
             && q.host.handed == n.host.handed + All(later)
             && Decided(later, frames - 1, typ, KnownTo(n.host), n.host.queries, q)
    ensures var q := AwaitResponse(h, typ, client, frames);
            q.host.handed == h.handed + All(l) && Decided(l, frames, typ, KnownTo(h), h.queries, q)
  {
    WaitTurn(h, typ, client, frames, n);
    HandOverKeeps(h, client);
    PassedOverDecided(h, n.got.value, n.host, later, frames - 1, typ, AwaitResponse(n.host, typ, client, frames - 1));
    l := later.(before := [n.got.value] + later.before);
  }

  lemma {:induction false} WaitDecided(h: BusState, typ: nibble, client: Answers, frames: nat) returns (l: Transcript)
    ensures var q := AwaitResponse(h, typ, client, frames);
            q.host.handed == h.handed + All(l) && Decided(l, frames, typ, KnownTo(h), h.queries, q)
    decreases frames
  {
    var n := HandOver(h, client);
    if frames == 0 {
      l := Transcript([], None, [], TimedOut);
    } else if n.got == None || IsResponse(n.got.value, typ) {
      l := LastTurnDecided(h, typ, client, frames, n);
    } else if Refuses(n.got.value) {
      l := RefusalDecided(h, n.host, n.got.value, typ, client, frames);
    } else {
      var later := WaitDecided(n.host, typ, client, frames - 1);
      l := TurnDecided(h, typ, client, frames, n, later);
    }
  }

  /** Every request in every run ends as the frames handed to it say. */
  lemma RequestDecided(h: BusState, typ: nibble, payload: seq<byte>, client: Answers, frames: nat)
    returns (l: Transcript)
    ensures var q := Request(h, typ, payload, client, frames);
            && q.host.handed == h.handed + All(l)
            && Decided(l, frames, typ, Known(if h.tx < 15 then h.tx + 1 else 0, h.mask), h.queries, q)
  {
    var s := Sent(h, typ, payload).(requests := h.requests + 1);
    assert KnownTo(s) == Known(if h.tx < 15 then h.tx + 1 else 0, h.mask);
    l := WaitDecided(s, typ, client, frames);
  }

  // ---------------------------------------------------------------- timeouts

  lemma {:induction false} WaitUses(h: BusState, typ: nibble, client: Answers, frames: nat) returns (k: nat)
    ensures var q := AwaitResponse(h, typ, client, frames);
            q.host.queries == h.queries ==> Used(h.script, k, q.host.script, q.host.w, q.r == TimedOut)
    decreases frames
  {
    k := 0;
    if frames > 0 {
      var n := HandOver(h, client);
      k := AwaitedUpTo(h.w, h.script, client);
      if n.got.Some? && Refuses(n.got.value) {
        SyncQueries(n.host, client, SYNC_RETRIES);
        AfterRefusal(h, n.host, n.got.value, typ, client, frames);
      } else {
        WaitTurn(h, typ, client, frames, n);
        if n.got.Some? && !IsResponse(n.got.value, typ) {
          var m := WaitUses(n.host, typ, client, frames - 1);
          var q := AwaitResponse(n.host, typ, client, frames - 1);
          if q.host.queries == h.queries {
            UsedTwice(h.script, k, n.host.script, n.host.w, m, q.host.script, q.host.w, q.r == TimedOut);
          }
          k := k + m;
        }
      }
    }
  }

  /** A request without a refusal times out only when the deadline has just passed or
      when nothing more can come. */
  lemma RequestTimesOut(h: BusState, typ: nibble, payload: seq<byte>, client: Answers, frames: nat) returns (k: nat)
    ensures var q := Request(h, typ, payload, client, frames);
            q.r == TimedOut && q.host.queries == h.queries ==>
              && k <= |h.script| && q.host.script == h.script[k..]
              && ((k > 0 && h.script[k - 1] == Deadline)
                  || (k == |h.script| && q.host.w.up == [] && q.host.w.down == []))
  {
    k := WaitUses(Sent(h, typ, payload).(requests := h.requests + 1), typ, client, frames);
  }
}
