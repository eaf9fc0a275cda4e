/** How a request of the Rust host ends, said of the frames it reads. */
module SessionOutcome {
  import opened Wire
  import opened Protocol
  import opened Link
  import opened Session

  /** What decides a request, said of the bytes that arrive. */
  lemma DecisiveBytes(f: Frame, b: seq<byte>, matches: Frame -> bool)
    requires WellFormed(f) && b == FrameBytes(f)
    ensures IsRefusal(f) <==> b[0] / 64 == 1
    ensures IsInfoResponse(f) <==> b[0] / 64 == 0 && b[0] % 16 == 7 && b[2] == 0 && b[3] == 4
    ensures Harmless(f, matches) <==> b[0] / 64 == 0 && (|b| == 4 || !matches(f))
  {
    PackByte(f.hdr.error, f.hdr.host, f.hdr.noAck, f.hdr.typ);
  }

  // ---------------------------------------------------------------- resynchronisation

  /** The frames `sync` reads with `tries` queries allowed and `queries` sent. An answer
      is the last one read, after as many queries as frames. Without one either every
      query was sent and drew another frame, or the last read timed out. */
  ghost predicate Consulted(read: seq<Frame>, tries: nat, queries: int, next: Option<byte>) {
    && (forall k :: 0 <= k < |read| - 1 ==> !IsInfoResponse(read[k]))
    && match next
       case Some(n) =>
         && 0 < |read| == queries <= tries
         && IsInfoResponse(read[|read| - 1]) && n == read[|read| - 1].payload[3]
       case None =>
         && (read != [] ==> !IsInfoResponse(read[|read| - 1]))
         && (|read| == queries == tries || |read| + 1 == queries <= tries)
  }

  lemma ConsultedLater(f: Frame, read: seq<Frame>, tries: nat, queries: int, next: Option<byte>)
    requires !IsInfoResponse(f) && Consulted(read, tries, queries, next)
    ensures Consulted([f] + read, tries + 1, queries + 1, next)
  {
    var all := [f] + read;
    assert forall k :: 1 <= k < |all| ==> all[k] == read[k - 1];
    assert read != [] ==> all[|all| - 1] == read[|read| - 1];
  }

  /** `count` queries were written. */
  ghost predicate Queried(before: seq<Frame>, after: seq<Frame>, count: int, tx: byte) {
    && |after| == |before| + count && before <= after
    && forall k :: |before| <= k < |after| ==> Carries(after[k], TYPE_PROTOCOL_INFO, tx % 16, [0])
  }

  lemma QueriedAgain(before: seq<Frame>, mid: seq<Frame>, after: seq<Frame>, count: int, tx: byte)
    requires mid == before + [Query(tx)] && Queried(mid, after, count, tx)
    ensures Queried(before, after, count + 1, tx)
  {
  }

  lemma {:induction false} SyncWrites(h: SessionState, client: Answers, tries: nat)
    ensures var s := Sync(h, client, tries);
            Queried(h.wrote, s.host.wrote, s.host.queries - h.queries, h.tx)
    decreases tries
  {
    if tries > 0 {
      var a := Asked(h, client);
      SyncUnfold(h, client, tries);
      if a.got.Some? && !IsInfoResponse(a.got.value) {
        SyncWrites(a.host, client, tries - 1);
        var s := Sync(a.host, client, tries - 1);
        QueriedAgain(h.wrote, a.host.wrote, s.host.wrote, s.host.queries - a.host.queries, h.tx);
      } else {
        QueriedAgain(h.wrote, a.host.wrote, a.host.wrote, 0, h.tx);
      }
    }
  }

  lemma {:induction false} SyncDecided(h: SessionState, client: Answers, tries: nat) returns (read: seq<Frame>)
    ensures var s := Sync(h, client, tries);
            && s.host.handed == h.handed + read && s.host.commands == h.commands
            && Consulted(read, tries, s.host.queries - h.queries, s.next)
            && s.host.tx == if s.next.Some? then s.next.value else h.tx
    decreases tries
  {
    read := [];
    if tries > 0 {
      var a := Asked(h, client);
      if a.got.Some? {
        read := [a.got.value];
        if !IsInfoResponse(a.got.value) {
          var more := SyncDecided(a.host, client, tries - 1);
          ConsultedLater(a.got.value, more, tries - 1, Sync(h, client, tries).host.queries - a.host.queries,
                         Sync(h, client, tries).next);
          Associative(h.handed, [a.got.value], more);
          read := [a.got.value] + more;
        }
      }
    }
  }

  // ---------------------------------------------------------------- the read loop

  /** After the retry: the first frame that is not harmless decides. */
  lemma {:induction false} AnswerVerdict(h: SessionState, typ: nibble, payload: seq<byte>, matches: Frame -> bool,
                                         client: Answers) returns (read: seq<Frame>)
    ensures var q := Answer(h, typ, payload, true, matches, client);
            && q.host.handed == h.handed + read && Verdict(read, matches, q.r)
            && q.retried && q.host.tx == h.tx && q.host.queries == h.queries && q.host.wrote == h.wrote
    decreases |h.script|, |h.w.up|, |h.w.down|
  {
    read := [];
    var a := Read(h, client);
    AwaitedLess(h.w, h.script, client);
    if a.got.Some? {
      read := [a.got.value];
      if Harmless(a.got.value, matches) {
        var more := AnswerVerdict(a.host, typ, payload, matches, client);
        VerdictLater(a.got.value, more, matches, Answer(h, typ, payload, true, matches, client).r);
        Associative(h.handed, [a.got.value], more);
        read := [a.got.value] + more;
      }
    }
  }

  /** The frames of a request: those read before the first refusal, those read by `sync`
      behind it, and those read after the retry. */
  datatype Transcript = Transcript(before: seq<Frame>, refusal: Option<Frame>, asked: seq<Frame>, after: seq<Frame>)

  function All(l: Transcript): seq<Frame> {
    l.before + Log(l.refusal) + l.asked + l.after
  }

  /** Without a refusal the first frame that is not harmless decides, and nothing is
      asked or resent. With one, `sync` decides: without an answer the call times out;
      with one the command goes out once more, and from there the first frame that is
      not harmless decides, a second refusal included. */
  ghost predicate Decided(l: Transcript, tx: byte, sent: nat, q: RequestOutcome, matches: Frame -> bool) {
    var queries := q.host.queries - sent;
    match l.refusal
    case None =>
      && l.asked == l.after == [] && Verdict(l.before, matches, q.r) && !q.retried && queries == 0
      && (l.before != [] ==> !IsRefusal(l.before[|l.before| - 1])) && q.host.tx == tx
    case Some(f) =>
      && IsRefusal(f) && (forall k :: 0 <= k < |l.before| ==> Harmless(l.before[k], matches))
      && if q.retried
         then && l.asked != [] && IsInfoResponse(l.asked[|l.asked| - 1])
              && var n := l.asked[|l.asked| - 1].payload[3];
              && Consulted(l.asked, 4, queries, Some(n)) && q.host.tx == (n % 16 + 1) % 16
              && Verdict(l.after, matches, q.r)
         else Consulted(l.asked, 4, queries, None) && l.after == [] && q.r == TimedOut && q.host.tx == tx
  }

  /** What was written behind the first command: the queries, and with an answer the
      command once more, carrying the number that the answer tells. */
  ghost predicate Written(l: Transcript, typ: nibble, payload: seq<byte>, tx: byte, before: seq<Frame>, sent: nat,
                          q: RequestOutcome)
  {
    var queries, after := q.host.queries - sent, q.host.wrote;
    if !q.retried then Queried(before, after, queries, tx)
    else
      && after != [] && Queried(before, after[..|after| - 1], queries, tx)
      && l.asked != [] && IsInfoResponse(l.asked[|l.asked| - 1])
      && Carries(after[|after| - 1], typ, l.asked[|l.asked| - 1].payload[3] % 16, payload)
  }

  lemma HarmlessLater(f: Frame, before: seq<Frame>, matches: Frame -> bool)
    requires Harmless(f, matches) && forall k :: 0 <= k < |before| ==> Harmless(before[k], matches)
    ensures forall k :: 0 <= k < |[f] + before| ==> Harmless(([f] + before)[k], matches)
  {
  }

  lemma AllLater(f: Frame, l: Transcript)
    ensures All(l.(before := [f] + l.before)) == [f] + All(l)
  {
    Associative([], [f], l.before);
  }

  lemma DecidedLater(f: Frame, l: Transcript, tx: byte, sent: nat, q: RequestOutcome, matches: Frame -> bool)
    requires Harmless(f, matches) && Decided(l, tx, sent, q, matches)
    ensures Decided(l.(before := [f] + l.before), tx, sent, q, matches)
    ensures All(l.(before := [f] + l.before)) == [f] + All(l)
  {
    AllLater(f, l);
    if l.refusal == None {
      VerdictLater(f, l.before, matches, q.r);
      var all := [f] + l.before;
      assert l.before != [] ==> all[|all| - 1] == l.before[|l.before| - 1];
    } else {
      HarmlessLater(f, l.before, matches);
    }
  }

  lemma Joined(handed: seq<Frame>, f: Frame, asked: seq<Frame>, after: seq<Frame>)
    ensures ((handed + [f]) + asked) + after == handed + All(Transcript([], Some(f), asked, after))
  {
    assert [] + [f] == [f];
  }

  /** A refusal, and `sync` finds no answer. */
  lemma RefusedUnanswered(sent: nat, s: SyncOutcome, asked: seq<Frame>, f: Frame, tx: byte, matches: Frame -> bool)
    requires IsRefusal(f) && s.host.tx == tx && Consulted(asked, 4, s.host.queries - sent, None)
    ensures Decided(Transcript([], Some(f), asked, []), tx, sent, RequestOutcome(TimedOut, false, s.host), matches)
  {
  }

  /** A refusal, an answer, and what is read after the retry. */
  lemma RefusedAnswered(sent: nat, s: SyncOutcome, q: RequestOutcome, asked: seq<Frame>, after: seq<Frame>,
                        f: Frame, tx: byte, matches: Frame -> bool)
    requires IsRefusal(f) && s.next.Some? && q.retried && q.host.queries == s.host.queries
    requires q.host.tx == (s.next.value % 16 + 1) % 16
    requires Consulted(asked, 4, s.host.queries - sent, s.next) && Verdict(after, matches, q.r)
    ensures Decided(Transcript([], Some(f), asked, after), tx, sent, q, matches)
  {
  }

  lemma ResentWritten(typ: nibble, payload: seq<byte>, tx: byte, before: seq<Frame>, sent: nat, s: SyncOutcome,
                      asked: seq<Frame>, l: Transcript, q: RequestOutcome)
    requires s.next.Some? && Consulted(asked, 4, s.host.queries - sent, s.next) && l.asked == asked
    requires Queried(before, s.host.wrote, s.host.queries - sent, tx)
    requires q.retried && q.host.queries == s.host.queries
    requires q.host.wrote == s.host.wrote + [Command(typ, s.next.value, payload)]
    ensures Written(l, typ, payload, tx, before, sent, q)
  {
    assert q.host.wrote[..|q.host.wrote| - 1] == s.host.wrote;
  }

  /** `l` is the account of a call that ends in `q`. */
  ghost predicate Accounts(l: Transcript, h: SessionState, typ: nibble, payload: seq<byte>, matches: Frame -> bool,
                           q: RequestOutcome)
  {
    && q.host.handed == h.handed + All(l) && Decided(l, h.tx, h.queries, q, matches)
    && Written(l, typ, payload, h.tx, h.wrote, h.queries, q)
  }

  /** One turn of the read loop. */
  lemma AnswerTurn(h: SessionState, typ: nibble, payload: seq<byte>, retried: bool, matches: Frame -> bool,
                   client: Answers, a: ReadOutcome)
    requires a == Read(h, client) && (a.got.Some? ==> retried || !IsRefusal(a.got.value))
    ensures Answer(h, typ, payload, retried, matches, client) ==
            match a.got
            case None => RequestOutcome(TimedOut, retried, a.host)
            case Some(f) =>
              if f.hdr.error != NO_ERROR then RequestOutcome(DeviceError(f.hdr.error), retried, a.host)
              else if Harmless(f, matches) then Answer(a.host, typ, payload, retried, matches, client)
              else RequestOutcome(Response(f), retried, a.host)
  {
  }

  lemma AfterRefusal(h: SessionState, a: SessionState, f: Frame, typ: nibble, payload: seq<byte>,
                     matches: Frame -> bool, client: Answers)
    requires Read(h, client) == ReadOutcome(Some(f), a) && IsRefusal(f)
    ensures var s := Sync(a, client, SYNC_TRIES);
            Answer(h, typ, payload, false, matches, client) ==
            match s.next
            case None => RequestOutcome(TimedOut, false, s.host)
            case Some(n) => Answer(SentCommand(s.host, typ, n, payload), typ, payload, true, matches, client)
  {
  }

  lemma ReadKeeps(h: SessionState, client: Answers)
    ensures var a := Read(h, client);
            && a.host.handed == h.handed + Log(a.got)
            && a.host.tx == h.tx && a.host.queries == h.queries && a.host.wrote == h.wrote
  {
  }

  lemma ResentVerdict(h: SessionState, typ: nibble, number: byte, payload: seq<byte>, matches: Frame -> bool,
                      client: Answers) returns (read: seq<Frame>)
    ensures var q := Answer(SentCommand(h, typ, number, payload), typ, payload, true, matches, client);
            && q.host.handed == h.handed + read && Verdict(read, matches, q.r) && q.retried
            && q.host.tx == (number % 16 + 1) % 16 && q.host.queries == h.queries
            && q.host.wrote == h.wrote + [Command(typ, number, payload)]
  {
    read := AnswerVerdict(SentCommand(h, typ, number, payload), typ, payload, matches, client);
  }

  /** `sync` ended in `s` behind a refusal. */
  ghost predicate SyncedBehind(h: SessionState, f: Frame, s: SyncOutcome, asked: seq<Frame>) {
    && IsRefusal(f) && s.host.handed == (h.handed + [f]) + asked
    && Consulted(asked, 4, s.host.queries - h.queries, s.next)
    && Queried(h.wrote, s.host.wrote, s.host.queries - h.queries, h.tx)
    && (s.next == None ==> s.host.tx == h.tx)
  }

  lemma SyncBehind(h: SessionState, a: SessionState, f: Frame, client: Answers) returns (asked: seq<Frame>)
    requires Read(h, client) == ReadOutcome(Some(f), a) && IsRefusal(f)
    ensures SyncedBehind(h, f, Sync(a, client, SYNC_TRIES), asked)
  {
    ReadKeeps(h, client);
    asked := SyncDecided(a, client, SYNC_TRIES);
    SyncWrites(a, client, SYNC_TRIES);
  }

  lemma UnansweredAccounts(h: SessionState, f: Frame, s: SyncOutcome, asked: seq<Frame>, typ: nibble,
                           payload: seq<byte>, matches: Frame -> bool)
    requires SyncedBehind(h, f, s, asked) && s.next == None
    ensures Accounts(Transcript([], Some(f), asked, []), h, typ, payload, matches,
                     RequestOutcome(TimedOut, false, s.host))
  {
    RefusedUnanswered(h.queries, s, asked, f, h.tx, matches);
    Joined(h.handed, f, asked, []);
  }

  lemma AnsweredAccounts(h: SessionState, f: Frame, s: SyncOutcome, asked: seq<Frame>, typ: nibble, payload: seq<byte>,
                         matches: Frame -> bool, after: seq<Frame>, q: RequestOutcome)
    requires SyncedBehind(h, f, s, asked) && s.next.Some?
    requires q.host.handed == s.host.handed + after && Verdict(after, matches, q.r) && q.retried
    requires q.host.tx == (s.next.value % 16 + 1) % 16 && q.host.queries == s.host.queries
    requires q.host.wrote == s.host.wrote + [Command(typ, s.next.value, payload)]
    ensures Accounts(Transcript([], Some(f), asked, after), h, typ, payload, matches, q)
  {
    RefusedAnswered(h.queries, s, q, asked, after, f, h.tx, matches);
    Joined(h.handed, f, asked, after);
    ResentWritten(typ, payload, h.tx, h.wrote, h.queries, s, asked, Transcript([], Some(f), asked, after), q);
  }

  /** The first refusal and what follows. */
  lemma RefusalDecided(h: SessionState, a: SessionState, f: Frame, typ: nibble, payload: seq<byte>,
                       matches: Frame -> bool, client: Answers) returns (l: Transcript)
    requires Read(h, client) == ReadOutcome(Some(f), a) && IsRefusal(f)
    ensures Accounts(l, h, typ, payload, matches, Answer(h, typ, payload, false, matches, client))
  {
    AfterRefusal(h, a, f, typ, payload, matches, client);
    var asked := SyncBehind(h, a, f, client);
    l := SyncedDecided(h, f, Sync(a, client, SYNC_TRIES), asked, typ, payload, matches, client);
  }

  lemma SyncedDecided(h: SessionState, f: Frame, s: SyncOutcome, asked: seq<Frame>, typ: nibble, payload: seq<byte>,
                      matches: Frame -> bool, client: Answers) returns (l: Transcript)
    requires SyncedBehind(h, f, s, asked)
    ensures Accounts(l, h, typ, payload, matches,
                     match s.next
                     case None => RequestOutcome(TimedOut, false, s.host)
                     case Some(n) => Answer(SentCommand(s.host, typ, n, payload), typ, payload, true, matches, client))
  {
    match s.next
    case None =>
      l := Transcript([], Some(f), asked, []);
      UnansweredAccounts(h, f, s, asked, typ, payload, matches);
    case Some(n) =>
      var after := ResentVerdict(s.host, typ, n, payload, matches, client);
      l := Transcript([], Some(f), asked, after);
      AnsweredAccounts(h, f, s, asked, typ, payload, matches, after,
                       Answer(SentCommand(s.host, typ, n, payload), typ, payload, true, matches, client));
  }

  /** The loop ends with this turn. */
  lemma LastTurnDecided(h: SessionState, typ: nibble, payload: seq<byte>, matches: Frame -> bool, client: Answers,
                        a: ReadOutcome) returns (l: Transcript)
    requires a == Read(h, client)
    requires a.got.Some? ==> !IsRefusal(a.got.value) && !Harmless(a.got.value, matches)
    ensures Accounts(l, h, typ, payload, matches, Answer(h, typ, payload, false, matches, client))
  {
    ReadKeeps(h, client);
    AnswerTurn(h, typ, payload, false, matches, client, a);
    l := Transcript(Log(a.got), None, [], []);
    assert All(l) == Log(a.got);
  }

  /** This turn passes over its frame, and `later` is the account of what follows. */
  lemma PassedTurnDecided(h: SessionState, f: Frame, n: SessionState, typ: nibble, payload: seq<byte>,
                          matches: Frame -> bool, q: RequestOutcome, later: Transcript)
    requires n.handed == h.handed + [f] && n.tx == h.tx && n.queries == h.queries && n.wrote == h.wrote
    requires Harmless(f, matches) && Accounts(later, n, typ, payload, matches, q)
    ensures Accounts(later.(before := [f] + later.before), h, typ, payload, matches, q)
  {
    DecidedLater(f, later, h.tx, h.queries, q, matches);
    Associative(h.handed, [f], All(later));
  }

  lemma {:induction false} AnswerDecided(h: SessionState, typ: nibble, payload: seq<byte>, matches: Frame -> bool,
                                         client: Answers) returns (l: Transcript)
    ensures Accounts(l, h, typ, payload, matches, Answer(h, typ, payload, false, matches, client))
    decreases |h.script|, |h.w.up|, |h.w.down|
  {
    var a := Read(h, client);
    AwaitedLess(h.w, h.script, client);
    if a.got == None || (!IsRefusal(a.got.value) && !Harmless(a.got.value, matches)) {
      l := LastTurnDecided(h, typ, payload, matches, client, a);
    } else if IsRefusal(a.got.value) {
      l := RefusalDecided(h, a.host, a.got.value, typ, payload, matches, client);
    } else {
      var later := AnswerDecided(a.host, typ, payload, matches, client);
      AnswerTurn(h, typ, payload, false, matches, client, a);
      ReadKeeps(h, client);
      PassedTurnDecided(h, a.got.value, a.host, typ, payload, matches,
                        Answer(a.host, typ, payload, false, matches, client), later);
      l := later.(before := [a.got.value] + later.before);
    }
  }

  /** Every request in every run ends as the frames it read say, and what it wrote is the
      command, the queries and the resent command of that. */
  lemma RequestDecided(h: SessionState, typ: nibble, payload: seq<byte>, matches: Frame -> bool, client: Answers)
    returns (l: Transcript)
    ensures var q, tx, n := Request(h, typ, payload, matches, client), (h.tx % 16 + 1) % 16, |h.wrote|;
            && q.host.handed == h.handed + All(l) && Decided(l, tx, h.queries, q, matches)
            && |q.host.wrote| > n && q.host.wrote[..n] == h.wrote
            && Carries(q.host.wrote[n], typ, h.tx % 16, payload)
            && Written(l, typ, payload, tx, q.host.wrote[..n + 1], h.queries, q)
  {
    var s := SentCommand(h, typ, h.tx, payload);
    assert s.handed == h.handed && s.queries == h.queries && s.tx == (h.tx % 16 + 1) % 16;
    l := AnswerDecided(s, typ, payload, matches, client);
    WrittenBehind(l, typ, payload, s.tx, h.wrote, Command(typ, h.tx, payload), h.queries,
                  Request(h, typ, payload, matches, client));
  }

  lemma WrittenBehind(l: Transcript, typ: nibble, payload: seq<byte>, tx: byte, before: seq<Frame>, c: Frame, sent: nat,
                      q: RequestOutcome)
    requires Written(l, typ, payload, tx, before + [c], sent, q) && q.host.queries >= sent
    ensures |q.host.wrote| > |before| && q.host.wrote[..|before|] == before && q.host.wrote[|before|] == c
    ensures q.host.wrote[..|before| + 1] == before + [c]
  {
  }

  // ---------------------------------------------------------------- timeouts

  lemma SentUses(h: SessionState, f: Frame) returns (k: nat)
    ensures Used(h.script, k, Sent(h, f).script, Sent(h, f).w, false)
  {
    k := if h.script != [] && h.script[0].InTransit? then 1 else 0;
    assert h.script[0..] == h.script;
  }

  lemma ReadUses(h: SessionState, client: Answers) returns (k: nat)
    ensures var a := Read(h, client);
            Used(h.script, k, a.host.script, a.host.w, a.got == None)
  {
    k := AwaitedUpTo(h.w, h.script, client);
  }

  lemma AskedUses(h: SessionState, client: Answers) returns (k: nat)
    ensures var a := Asked(h, client);
            Used(h.script, k, a.host.script, a.host.w, a.got == None) && a.host.queries == h.queries + 1
  {
    var s := Sent(h, Query(h.tx)).(queries := h.queries + 1);
    var d := SentUses(h, Query(h.tx));
    var m := ReadUses(s, client);
    var a := Read(s, client);
    UsedTwice(h.script, d, s.script, s.w, m, a.host.script, a.host.w, a.got == None);
    k := d + m;
  }

  /** `sync` failed, and not for want of queries. */
  ghost predicate LateSync(s: SyncOutcome, all: nat) {
    s.next == None && s.host.queries != all
  }

  lemma AskedAgainUses(h: SessionState, a: ReadOutcome, k: nat, s: SyncOutcome, m: nat, tries: nat)
    requires tries > 0 && a.host.queries == h.queries + 1 && Used(h.script, k, a.host.script, a.host.w, a.got == None)
    requires Used(a.host.script, m, s.host.script, s.host.w, LateSync(s, a.host.queries + (tries - 1)))
    ensures Used(h.script, k + m, s.host.script, s.host.w, LateSync(s, h.queries + tries))
  {
    UsedTwice(h.script, k, a.host.script, a.host.w, m, s.host.script, s.host.w, LateSync(s, h.queries + tries));
  }

  /** The query settles the matter. */
  lemma LastAskedUses(h: SessionState, client: Answers, tries: nat, a: ReadOutcome) returns (k: nat)
    requires tries > 0 && a == Asked(h, client) && (a.got.Some? ==> IsInfoResponse(a.got.value))
    ensures var s := Sync(h, client, tries);
            Used(h.script, k, s.host.script, s.host.w, LateSync(s, h.queries + tries))
  {
    k := AskedUses(h, client);
    SyncUnfold(h, client, tries);
  }

  /** It does not, and `m` events are used up behind it. */
  lemma MoreAskedUses(h: SessionState, client: Answers, tries: nat, a: ReadOutcome, m: nat) returns (k: nat)
    requires tries > 0 && a == Asked(h, client) && a.got.Some? && !IsInfoResponse(a.got.value)
    requires var s := Sync(a.host, client, tries - 1);
             Used(a.host.script, m, s.host.script, s.host.w, LateSync(s, a.host.queries + (tries - 1)))
    ensures var s := Sync(h, client, tries);
            Used(h.script, k, s.host.script, s.host.w, LateSync(s, h.queries + tries))
  {
    k := AskedUses(h, client);
    SyncUnfold(h, client, tries);
    AskedAgainUses(h, a, k, Sync(a.host, client, tries - 1), m, tries);
    k := k + m;
  }

  lemma {:induction false} SyncUses(h: SessionState, client: Answers, tries: nat) returns (k: nat)
    ensures var s := Sync(h, client, tries);
            Used(h.script, k, s.host.script, s.host.w, LateSync(s, h.queries + tries))
    decreases tries
  {
    var a := Asked(h, client);
    if tries == 0 {
      k := 0;
    } else if a.got == None || IsInfoResponse(a.got.value) {
      k := LastAskedUses(h, client, tries, a);
    } else {
      var m := SyncUses(a.host, client, tries - 1);
      k := MoreAskedUses(h, client, tries, a, m);
    }
  }

  lemma {:induction false} RetriedUses(h: SessionState, typ: nibble, payload: seq<byte>, matches: Frame -> bool,
                                       client: Answers) returns (k: nat)
    ensures var q := Answer(h, typ, payload, true, matches, client);
            Used(h.script, k, q.host.script, q.host.w, q.r == TimedOut)
    decreases |h.script|, |h.w.up|, |h.w.down|
  {
    var a := Read(h, client);
    k := ReadUses(h, client);
    AwaitedLess(h.w, h.script, client);
    AnswerTurn(h, typ, payload, true, matches, client, a);
    if a.got.Some? && Harmless(a.got.value, matches) {
      var m := RetriedUses(a.host, typ, payload, matches, client);
      var q := Answer(a.host, typ, payload, true, matches, client);
      UsedTwice(h.script, k, a.host.script, a.host.w, m, q.host.script, q.host.w, q.r == TimedOut);
      k := k + m;
    }
  }

  lemma ResentUses(h: SessionState, typ: nibble, number: byte, payload: seq<byte>, matches: Frame -> bool,
                   client: Answers) returns (k: nat)
    ensures var q := Answer(SentCommand(h, typ, number, payload), typ, payload, true, matches, client);
            Used(h.script, k, q.host.script, q.host.w, q.r == TimedOut)
  {
    var s := SentCommand(h, typ, number, payload);
    var q := Answer(s, typ, payload, true, matches, client);
    var d := SentUses(h, Command(typ, number, payload));
    var m := RetriedUses(s, typ, payload, matches, client);
    UsedTwice(h.script, d, s.script, s.w, m, q.host.script, q.host.w, q.r == TimedOut);
    k := d + m;
  }

  /** The call timed out, and not for want of queries. */
  ghost predicate Late(q: RequestOutcome, sent: nat) {
    q.r == TimedOut && (q.retried || q.host.queries != sent + SYNC_TRIES)
  }

  /** The refusal of the first command and what follows. */
  lemma RefusalUses(h: SessionState, a: SessionState, f: Frame, typ: nibble, payload: seq<byte>,
                    matches: Frame -> bool, client: Answers) returns (k: nat)
    requires Read(h, client) == ReadOutcome(Some(f), a) && IsRefusal(f)
    ensures var q := Answer(h, typ, payload, false, matches, client);
            Used(a.script, k, q.host.script, q.host.w, Late(q, h.queries))
  {
    AfterRefusal(h, a, f, typ, payload, matches, client);
    var m := SyncUses(a, client, SYNC_TRIES);
    k := RefusalThenUses(a, Sync(a, client, SYNC_TRIES), m, typ, payload, matches, client);
  }

  /** `sync` ended in `s`, and the command is resent if it found an answer. */
  lemma RefusalThenUses(a: SessionState, s: SyncOutcome, m: nat, typ: nibble, payload: seq<byte>,
                        matches: Frame -> bool, client: Answers) returns (k: nat)
    requires Used(a.script, m, s.host.script, s.host.w, LateSync(s, a.queries + SYNC_TRIES))
    ensures var q := match s.next
              case None => RequestOutcome(TimedOut, false, s.host)
              case Some(n) => Answer(SentCommand(s.host, typ, n, payload), typ, payload, true, matches, client);
            Used(a.script, k, q.host.script, q.host.w, Late(q, a.queries))
  {
    k := m;
    if s.next.Some? {
      k := ResentUses(s.host, typ, s.next.value, payload, matches, client);
      var q := Answer(SentCommand(s.host, typ, s.next.value, payload), typ, payload, true, matches, client);
      AnsweredUses(a, s, m, q, k, a.queries);
      k := m + k;
    }
  }

  lemma AnsweredUses(a: SessionState, s: SyncOutcome, k: nat, q: RequestOutcome, m: nat, sent: nat)
    requires Used(a.script, k, s.host.script, s.host.w, false)
    requires Used(s.host.script, m, q.host.script, q.host.w, q.r == TimedOut)
    ensures Used(a.script, k + m, q.host.script, q.host.w, Late(q, sent))
  {
    UsedTwice(a.script, k, s.host.script, s.host.w, m, q.host.script, q.host.w, q.r == TimedOut);
  }

  /** What the first frame uses up, and `m` events behind it. */
  lemma BothUse(h: SessionState, client: Answers, a: ReadOutcome, q: RequestOutcome, m: nat) returns (k: nat)
    requires a == Read(h, client) && Used(a.host.script, m, q.host.script, q.host.w, Late(q, h.queries))
    ensures Used(h.script, k, q.host.script, q.host.w, Late(q, h.queries))
  {
    k := ReadUses(h, client);
    UsedTwice(h.script, k, a.host.script, a.host.w, m, q.host.script, q.host.w, Late(q, h.queries));
    k := k + m;
  }

  lemma LastReadUses(h: SessionState, client: Answers, a: ReadOutcome, q: RequestOutcome) returns (k: nat)
    requires a == Read(h, client) && q.host == a.host && (q.r == TimedOut ==> a.got == None)
    ensures Used(h.script, k, q.host.script, q.host.w, Late(q, h.queries))
  {
    k := ReadUses(h, client);
  }

  lemma {:induction false} AnswerUses(h: SessionState, typ: nibble, payload: seq<byte>, matches: Frame -> bool,
                                      client: Answers) returns (k: nat)
    ensures var q := Answer(h, typ, payload, false, matches, client);
            Used(h.script, k, q.host.script, q.host.w, Late(q, h.queries))
    decreases |h.script|, |h.w.up|, |h.w.down|
  {
    var a, q := Read(h, client), Answer(h, typ, payload, false, matches, client);
    AwaitedLess(h.w, h.script, client);
    if a.got.Some? && IsRefusal(a.got.value) {
      var m := RefusalUses(h, a.host, a.got.value, typ, payload, matches, client);
      k := BothUse(h, client, a, q, m);
    } else {
      AnswerTurn(h, typ, payload, false, matches, client, a);
      if a.got.Some? && Harmless(a.got.value, matches) {
        var m := AnswerUses(a.host, typ, payload, matches, client);
        k := BothUse(h, client, a, q, m);
      } else {
        k := LastReadUses(h, client, a, q);
      }
    }
  }

  /** A request times out only when the deadline has just passed, when nothing more can
      come, or when `sync` has used up its four queries without an answer. */
  lemma RequestTimesOut(h: SessionState, typ: nibble, payload: seq<byte>, matches: Frame -> bool, client: Answers)
    returns (k: nat)
    ensures var q := Request(h, typ, payload, matches, client);
            && k <= |h.script| && q.host.script == h.script[k..]
            && (q.r == TimedOut ==>
                  || (k > 0 && h.script[k - 1] == Deadline)
                  || (k == |h.script| && q.host.w.up == [] && q.host.w.down == [])
                  || (!q.retried && q.host.queries == h.queries + 4))
  {
    var s, q := SentCommand(h, typ, h.tx, payload), Request(h, typ, payload, matches, client);
    var m := AnswerUses(s, typ, payload, matches, client);
    var d := SentUses(h, Command(typ, h.tx, payload));
    UsedTwice(h.script, d, s.script, s.w, m, q.host.script, q.host.w, Late(q, h.queries));
    k := d + m;
  }
}
