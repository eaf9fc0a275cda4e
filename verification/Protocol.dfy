/** The device's side of the link protocol, one whole host frame at a time: the
sequence check, the acknowledgements and the PROTOCOL_INFO answer. */
module Protocol {
  import opened Wire

  /** `stuck` records that a data frame for a type without a client has been read:
      the work handler never returns from it. */
  datatype Device = Device(
    rx: nibble, tx: nibble, mask: word, wired: set<nibble>, accepted: seq<Frame>, stuck: bool)

  datatype Reaction = Reaction(dev: Device, replies: seq<Frame>)

  /** A frame that takes part in the sequence check. */
  predicate IsData(f: Frame) {
    f.hdr.length > 0 && f.hdr.typ != TYPE_PROTOCOL_INFO
  }

  predicate IsRefusal(f: Frame) {
    f.hdr.error == INCORRECT_SEQUENCE_NUMBER
  }

  function InfoPayload(mask: word, rx: nibble): seq<byte> {
    [PROTOCOL_VERSION, mask % 256, mask / 256, rx]
  }

  /** `handle_protocol_info`: answers with the number it expects next. */
  function InfoResponse(d: Device): Frame {
    Frame(Header(TYPE_PROTOCOL_INFO, false, true, NO_ERROR, 0, d.tx, 4), InfoPayload(d.mask, d.rx))
  }

  predicate IsInfoResponse(f: Frame) {
    f.hdr.typ == TYPE_PROTOCOL_INFO && f.hdr.error == NO_ERROR && f.hdr.length == 4 && |f.payload| == 4
  }

  /** The device's reaction to one complete host frame for which buffers are available. */
  function React(d: Device, f: Frame): Reaction {
    if d.stuck then Reaction(d, [])
    else if f.hdr.typ == TYPE_PROTOCOL_INFO then
      Reaction(d.(tx := Next(d.tx)), [InfoResponse(d)])
    else if f.hdr.length == 0 then Reaction(d, [])
    else if f.hdr.typ !in d.wired then
      Reaction(d.(stuck := true), [Ack(f.hdr.typ, f.hdr.number, LENGTH_TOO_LONG, true)])
    else if f.hdr.number != d.rx then
      Reaction(d.(rx := 0), [Ack(f.hdr.typ, d.rx, INCORRECT_SEQUENCE_NUMBER, true)])
    else
      Reaction(d.(rx := Next(d.rx), accepted := d.accepted + [f]),
               if f.hdr.noAck then [] else [Ack(f.hdr.typ, f.hdr.number, NO_ERROR, true)])
  }

  function ReactAll(d: Device, frames: seq<Frame>): Reaction {
    if frames == [] then Reaction(d, [])
    else
      var before := ReactAll(d, frames[..|frames| - 1]);
      var now := React(before.dev, frames[|frames| - 1]);
      Reaction(now.dev, before.replies + now.replies)
  }

  lemma ReactSnoc(d: Device, frames: seq<Frame>, f: Frame)
    ensures var r := ReactAll(d, frames);
            ReactAll(d, frames + [f]) == Reaction(React(r.dev, f).dev, r.replies + React(r.dev, f).replies)
  {
    assert (frames + [f])[..|frames|] == frames;
  }

  /** `initialize_uart`. */
  function Reset(d: Device): Device {
    d.(rx := 0, tx := 0, stuck := false)
  }

  /** The frames that take part in the sequence check. */
  function DataOf(frames: seq<Frame>): seq<Frame> {
    if frames == [] then []
    else
      var before := DataOf(frames[..|frames| - 1]);
      if IsData(frames[|frames| - 1]) then before + [frames[|frames| - 1]] else before
  }

  lemma {:induction false} DataOfAppend(a: seq<Frame>, b: seq<Frame>)
    ensures DataOf(a + b) == DataOf(a) + DataOf(b)
  {
    if b == [] {
      assert a + b == a;
    } else {
      var n := |b| - 1;
      assert (a + b)[..|a + b| - 1] == a + b[..n];
      DataOfAppend(a, b[..n]);
    }
  }

  /** PROTOCOL_INFO frames and acknowledgements, anywhere in a run and with any
      number, leave the counter and the clients exactly as if they had never been
      sent. */
  lemma {:induction false} InfoIsTransparent(d: Device, frames: seq<Frame>)
    ensures ReactAll(d, frames).dev == ReactAll(d, DataOf(frames)).dev.(tx := ReactAll(d, frames).dev.tx)
  {
    if frames != [] {
      var init, last := frames[..|frames| - 1], frames[|frames| - 1];
      InfoIsTransparent(d, init);
      SameReaction(ReactAll(d, init).dev, ReactAll(d, DataOf(init)).dev, last);
      if IsData(last) {
        var ds := DataOf(frames);
        assert ds[..|ds| - 1] == DataOf(init);
      }
    }
  }

  /** The transmit counter has no say in what happens to a frame. */
  lemma SameReaction(d: Device, e: Device, f: Frame)
    requires d == e.(tx := d.tx)
    ensures IsData(f) ==> React(d, f).dev == React(e, f).dev.(tx := React(d, f).dev.tx)
    ensures !IsData(f) ==> React(d, f).dev == e.(tx := React(d, f).dev.tx)
  {
  }

  /** The number reported at any point of any run is the one number a wired data
      frame must carry to be accepted next. */
  lemma ReportedNumberIsNext(d: Device, frames: seq<Frame>, query: Frame, next: Frame)
    requires query.hdr.typ == TYPE_PROTOCOL_INFO
    requires IsData(next) && next.hdr.typ in d.wired && !ReactAll(d, frames).dev.stuck
    ensures var asked := React(ReactAll(d, frames).dev, query);
            && |asked.replies| == 1 && IsInfoResponse(asked.replies[0])
            && (React(asked.dev, next).dev.accepted == ReactAll(d, frames).dev.accepted + [next]
                <==> next.hdr.number == asked.replies[0].payload[3])
  {
    SameClients(d, frames);
    var asked := React(ReactAll(d, frames).dev, query);
    assert |React(asked.dev, next).dev.accepted| == |asked.dev.accepted| || next.hdr.number == asked.dev.rx;
  }

  lemma {:induction false} SameClients(d: Device, frames: seq<Frame>)
    ensures ReactAll(d, frames).dev.wired == d.wired
  {
    if frames != [] {
      SameClients(d, frames[..|frames| - 1]);
    }
  }

  ghost predicate AllWiredData(d: Device, frames: seq<Frame>) {
    forall f :: f in frames ==> IsData(f) && f.hdr.typ in d.wired
  }

  /** How the device judges the last of a stream of wired data frames, said without
      the device: the expected number is the count of frames since the last refusal,
      or since the start plus the number expected there. */
  ghost predicate AcceptedAt(start: nibble, frames: seq<Frame>, k: nat)
    requires k < |frames|
  {
    frames[k].hdr.number == Expected(start, frames, k)
  }

  ghost function Expected(start: nibble, frames: seq<Frame>, k: nat): nibble
    requires k <= |frames|
  {
    if k == 0 then start
    else if frames[k - 1].hdr.number == Expected(start, frames, k - 1)
    then Advance(frames[k - 1].hdr.number, 1) else 0
  }

  ghost function AcceptedOf(start: nibble, frames: seq<Frame>, k: nat): seq<Frame>
    requires k <= |frames|
  {
    if k == 0 then []
    else AcceptedOf(start, frames, k - 1) + (if AcceptedAt(start, frames, k - 1) then [frames[k - 1]] else [])
  }

  /** One acknowledgement per accepted frame that wants one, and one error
      acknowledgement naming the expected number per refused frame. */
  ghost function RepliesOf(start: nibble, frames: seq<Frame>, k: nat): seq<Frame>
    requires k <= |frames|
  {
    if k == 0 then []
    else
      var h := frames[k - 1].hdr;
      RepliesOf(start, frames, k - 1) +
      (if !AcceptedAt(start, frames, k - 1)
       then [Ack(h.typ, Expected(start, frames, k - 1), INCORRECT_SEQUENCE_NUMBER, true)]
       else if h.noAck then [] else [Ack(h.typ, h.number, NO_ERROR, true)])
  }

  lemma {:induction false} JudgePrefix(start: nibble, frames: seq<Frame>, n: nat, k: nat)
    requires k <= n <= |frames|
    ensures Expected(start, frames[..n], k) == Expected(start, frames, k)
    ensures AcceptedOf(start, frames[..n], k) == AcceptedOf(start, frames, k)
    ensures RepliesOf(start, frames[..n], k) == RepliesOf(start, frames, k)
  {
    if k > 0 {
      JudgePrefix(start, frames, n, k - 1);
      assert frames[..n][k - 1] == frames[k - 1];
    }
  }

  lemma JudgeOne(start: nibble, d: Device, acc: seq<Frame>, frames: seq<Frame>, n: nat)
    requires n < |frames| && IsData(frames[n]) && frames[n].hdr.typ in d.wired && !d.stuck
    requires d.rx == Expected(start, frames, n)
    requires d.accepted == acc + AcceptedOf(start, frames, n)
    ensures var r := React(d, frames[n]);
            && r.dev == d.(rx := Expected(start, frames, n + 1), accepted := acc + AcceptedOf(start, frames, n + 1))
            && RepliesOf(start, frames, n) + r.replies == RepliesOf(start, frames, n + 1)
  {
    if AcceptedAt(start, frames, n) {
      assert acc + AcceptedOf(start, frames, n) + [frames[n]] == acc + (AcceptedOf(start, frames, n) + [frames[n]]);
    }
  }

  /** A stream of wired data frames: the device ends up expecting `Expected`, hands
      on exactly the frames carrying their expected number, in order, and sends
      exactly the replies of `RepliesOf`. */
  lemma {:induction false} StreamJudged(d: Device, frames: seq<Frame>)
    requires AllWiredData(d, frames) && !d.stuck
    ensures ReactAll(d, frames).dev ==
            d.(rx := Expected(d.rx, frames, |frames|),
               accepted := d.accepted + AcceptedOf(d.rx, frames, |frames|))
    ensures ReactAll(d, frames).replies == RepliesOf(d.rx, frames, |frames|)
  {
    if frames != [] {
      var n := |frames| - 1;
      assert frames[n] in frames;
      StreamJudged(d, frames[..n]);
      JudgePrefix(d.rx, frames, n, n);
      JudgeOne(d.rx, ReactAll(d, frames[..n]).dev, d.accepted, frames, n);
    }
  }

  /** `r` is what the device owes for `f` when it expects `expected`. */
  ghost predicate Settled(r: Frame, f: Frame, expected: nibble) {
    if f.hdr.number == expected then Names(r, f.hdr.typ, f.hdr.number, NO_ERROR, true)
    else Names(r, f.hdr.typ, expected, INCORRECT_SEQUENCE_NUMBER, true)
  }

  /** The replies to a stream of wired data frames, field by field. Frame `k` adds at most
      one: refused, one that carries the number expected then and the error; accepted,
      one with its own number and no error, unless the frame wants none. */
  lemma RepliesDecided(d: Device, frames: seq<Frame>, k: nat)
    requires AllWiredData(d, frames) && !d.stuck && k < |frames|
    ensures var before, after := ReactAll(d, frames[..k]).replies, ReactAll(d, frames[..k + 1]).replies;
            && before <= after && |after| <= |before| + 1
            && (after == before <==> AcceptedAt(d.rx, frames, k) && frames[k].hdr.noAck)
            && (after != before ==> Settled(after[|before|], frames[k], Expected(d.rx, frames, k)))
  {
    RepliesUpTo(d, frames, k);
    RepliesUpTo(d, frames, k + 1);
    var before, after := ReactAll(d, frames[..k]).replies, ReactAll(d, frames[..k + 1]).replies;
    if !(AcceptedAt(d.rx, frames, k) && frames[k].hdr.noAck) {
      assert |after| == |before| + 1;
    }
  }

  lemma RepliesUpTo(d: Device, frames: seq<Frame>, k: nat)
    requires AllWiredData(d, frames) && !d.stuck && k <= |frames|
    ensures ReactAll(d, frames[..k]).replies == RepliesOf(d.rx, frames, k)
  {
    StreamJudged(d, frames[..k]);
    JudgePrefix(d.rx, frames, k, k);
  }

  /** What the device sends for any one frame, field by field. */
  lemma ReplyDecided(d: Device, f: Frame)
    ensures var rs := React(d, f).replies;
            && |rs| <= 1
            && (rs == [] <==> d.stuck || (f.hdr.typ != TYPE_PROTOCOL_INFO && f.hdr.length == 0)
                              || (IsData(f) && f.hdr.typ in d.wired && f.hdr.number == d.rx && f.hdr.noAck))
            && (rs != [] && f.hdr.typ == TYPE_PROTOCOL_INFO ==>
                  FrameBytes(rs[0]) == [39, d.tx * 16, 0, 4, 1, d.mask % 256, d.mask / 256, d.rx])
            && (rs != [] && IsData(f) && f.hdr.typ !in d.wired ==>
                  Names(rs[0], f.hdr.typ, f.hdr.number, LENGTH_TOO_LONG, true))
            && (rs != [] && IsData(f) && f.hdr.typ in d.wired ==> Settled(rs[0], f, d.rx))
  {
    InfoBytes(d);
  }

  /** The answer to PROTOCOL_INFO on the wire. */
  lemma InfoBytes(d: Device)
    ensures FrameBytes(InfoResponse(d)) == [39, d.tx * 16, 0, 4, 1, d.mask % 256, d.mask / 256, d.rx]
  {
    assert EncodeHeader(InfoResponse(d).hdr) == [39, d.tx * 16, 0, 4];
  }

  /** The first `k` frames count up from `start`. */
  ghost predicate CountsUp(frames: seq<Frame>, start: nibble, k: nat)
    requires k <= |frames|
  {
    forall j :: 0 <= j < k ==> frames[j].hdr.number == Advance(start, j)
  }

  lemma {:induction false} CountingAccepted(start: nibble, frames: seq<Frame>, k: nat)
    requires k <= |frames| && CountsUp(frames, start, k)
    ensures Expected(start, frames, k) == Advance(start, k) && AcceptedOf(start, frames, k) == frames[..k]
  {
    AdvanceTwice(start, if k > 0 then k - 1 else 0);
    if k > 0 {
      CountingAccepted(start, frames, k - 1);
      assert AcceptedAt(start, frames, k - 1);
      assert frames[..k] == frames[..k - 1] + [frames[k - 1]];
    }
  }

  lemma {:induction false} AcceptedCounts(start: nibble, frames: seq<Frame>, k: nat)
    requires k <= |frames|
    ensures |AcceptedOf(start, frames, k)| <= k
    ensures |AcceptedOf(start, frames, k)| == k ==> CountsUp(frames, start, k)
  {
    if k > 0 {
      AcceptedCounts(start, frames, k - 1);
      if |AcceptedOf(start, frames, k)| == k {
        CountingAccepted(start, frames, k - 1);
      }
    }
  }

  /** A stream of wired data frames is accepted as a whole if and only if its numbers
      count up from the one the device expects. */
  lemma AllAcceptedIff(d: Device, frames: seq<Frame>)
    requires AllWiredData(d, frames) && !d.stuck
    ensures ReactAll(d, frames).dev.accepted == d.accepted + frames <==> CountsUp(frames, d.rx, |frames|)
  {
    StreamJudged(d, frames);
    var all := AcceptedOf(d.rx, frames, |frames|);
    assert |d.accepted + all| == |d.accepted| + |all| && |d.accepted + frames| == |d.accepted| + |frames|;
    AcceptedCounts(d.rx, frames, |frames|);
    if CountsUp(frames, d.rx, |frames|) {
      CountingAccepted(d.rx, frames, |frames|);
      assert frames[..|frames|] == frames;
    }
  }

  /** Between refusals the accepted numbers are consecutive modulo 16, and the first
      number accepted after a refusal is 0. */
  lemma {:induction false} RunsAreConsecutive(start: nibble, frames: seq<Frame>, from: nat, k: nat)
    requires from <= k < |frames|
    requires forall j :: from <= j <= k ==> AcceptedAt(start, frames, j)
    ensures frames[k].hdr.number == Advance(Expected(start, frames, from), k - from)
    ensures from > 0 && !AcceptedAt(start, frames, from - 1) ==> frames[from].hdr.number == 0
  {
    assert AcceptedAt(start, frames, from);
    AdvanceTwice(Expected(start, frames, from), 0);
    if k > from {
      RunsAreConsecutive(start, frames, from, k - 1);
      AdvanceTwice(Expected(start, frames, from), k - 1 - from);
      assert AcceptedAt(start, frames, k) && AcceptedAt(start, frames, k - 1);
    }
  }
}
