/** The device's threads on the wire. The device takes the transmit mutex per block and
not per frame: when its frames stay whole, and what a receiver makes of them. */
module DeviceTransmit {
  import opened Wire
  import opened Stream
  import opened Transmit

  /** The device writes a frame in blocks, each under its own lock: a header, and a
      payload if there is one. */
  datatype Block = HeaderOf(frame: Frame) | PayloadOf(frame: Frame)

  function BlockBytes(b: Block): seq<byte> {
    match b
    case HeaderOf(f) => EncodeHeader(f.hdr)
    case PayloadOf(f) => f.payload
  }

  /** The blocks of `serial_send_frame`, or of an acknowledgement. */
  function Blocks(f: Frame): seq<Block> {
    if f.payload == [] then [HeaderOf(f)] else [HeaderOf(f), PayloadOf(f)]
  }

  function AllBlocks(frames: seq<Frame>): seq<Block> {
    if frames == [] then [] else Blocks(frames[0]) + AllBlocks(frames[1..])
  }

  /** The blocks each thread writes for its frames. */
  function BlockJobs(senders: seq<seq<Frame>>): (jobs: seq<seq<Block>>)
    ensures |jobs| == |senders|
    ensures forall t :: 0 <= t < |senders| ==> jobs[t] == AllBlocks(senders[t])
  {
    seq(|senders|, t requires 0 <= t < |senders| => AllBlocks(senders[t]))
  }

  /** Whole frames, one after the other, and perhaps the header of one more. */
  predicate Unbroken(blocks: seq<Block>) {
    blocks == [] ||
    (blocks[0].HeaderOf? &&
     var f := blocks[0].frame;
     if f.payload == [] then Unbroken(blocks[1..])
     else |blocks| == 1 || (blocks[1] == PayloadOf(f) && Unbroken(blocks[2..])))
  }

  /** The whole frames among the blocks. */
  function FramesIn(blocks: seq<Block>): seq<Frame>
    requires Unbroken(blocks)
  {
    if blocks == [] then []
    else
      var f := blocks[0].frame;
      if f.payload == [] then [f] + FramesIn(blocks[1..])
      else if |blocks| == 1 then []
      else [f] + FramesIn(blocks[2..])
  }

  /** The header that begins one more frame, if any. */
  function Begun(blocks: seq<Block>): seq<Block>
    requires Unbroken(blocks)
  {
    if blocks == [] then []
    else
      var f := blocks[0].frame;
      if f.payload == [] then Begun(blocks[1..])
      else if |blocks| == 1 then blocks
      else Begun(blocks[2..])
  }

  /** That is what `Unbroken` says. */
  lemma {:induction false} UnbrokenMeans(blocks: seq<Block>)
    requires Unbroken(blocks)
    ensures blocks == AllBlocks(FramesIn(blocks)) + Begun(blocks)
    ensures var rest := Begun(blocks);
            rest == [] || (|rest| == 1 && rest[0].HeaderOf? && rest[0].frame.payload != [])
    decreases |blocks|
  {
    if blocks != [] {
      var f := blocks[0].frame;
      if f.payload == [] {
        UnbrokenMeans(blocks[1..]);
        FirstBlocks(f, FramesIn(blocks[1..]), Begun(blocks), blocks);
      } else if |blocks| > 1 {
        UnbrokenMeans(blocks[2..]);
        FirstBlocks(f, FramesIn(blocks[2..]), Begun(blocks), blocks);
      }
    }
  }

  lemma FirstBlocks(f: Frame, frames: seq<Frame>, rest: seq<Block>, blocks: seq<Block>)
    ensures AllBlocks([f] + frames) == Blocks(f) + AllBlocks(frames)
    ensures var k := |Blocks(f)|;
            |blocks| >= k && blocks[..k] == Blocks(f) && blocks[k..] == AllBlocks(frames) + rest ==>
              blocks == AllBlocks([f] + frames) + rest
  {
    assert ([f] + frames)[1..] == frames;
    if |blocks| >= |Blocks(f)| && blocks[..|Blocks(f)|] == Blocks(f) {
      assert blocks == Blocks(f) + blocks[|Blocks(f)|..];
    }
  }

  // ---------------------------------------------------------------- one sender, or nothing but headers

  lemma {:induction false} UnbrokenPrefix(frames: seq<Frame>, n: nat)
    requires n <= |AllBlocks(frames)|
    ensures Unbroken(AllBlocks(frames)[..n])
    decreases |frames|
  {
    if frames != [] && n > 0 {
      var f, rest := frames[0], AllBlocks(frames[1..]);
      var all, k := AllBlocks(frames), |Blocks(frames[0])|;
      if n >= k {
        assert all[..n][k..] == rest[..n - k];
        assert all[..n][0] == HeaderOf(f) && (k == 2 ==> all[..n][1] == PayloadOf(f));
        UnbrokenPrefix(frames[1..], n - k);
      }
    }
  }

  lemma {:induction false} HeadersUnbroken(blocks: seq<Block>)
    requires forall b :: b in blocks ==> b.HeaderOf? && b.frame.payload == []
    ensures Unbroken(blocks)
    decreases |blocks|
  {
    if blocks != [] {
      assert blocks[0] in blocks && forall b :: b in blocks[1..] ==> b in blocks;
      HeadersUnbroken(blocks[1..]);
    }
  }

  lemma {:induction false} BlocksOfSilent(frames: seq<Frame>)
    requires forall f :: f in frames ==> f.payload == []
    ensures forall b :: b in AllBlocks(frames) ==> b.HeaderOf? && b.frame.payload == []
  {
    if frames != [] {
      assert frames[0] in frames && forall f :: f in frames[1..] ==> f in frames;
      BlocksOfSilent(frames[1..]);
    }
  }

  ghost predicate OneSender(senders: seq<seq<Frame>>) {
    forall t, u :: 0 <= t < |senders| && 0 <= u < |senders| && senders[t] != [] && senders[u] != [] ==> t == u
  }

  ghost predicate NoPayloads(senders: seq<seq<Frame>>) {
    forall t, f :: 0 <= t < |senders| && f in senders[t] ==> f.payload == []
  }

  lemma {:induction false} OnlyBy<J>(done: seq<(nat, J)>, t: nat)
    requires forall k :: 0 <= k < |done| ==> done[k].0 == t
    ensures By(done, t) == Jobs(done)
  {
    if done != [] {
      var n := |done| - 1;
      OnlyBy(done[..n], t);
      assert Jobs(done) == Jobs(done[..n]) + [done[n].1];
    } else {
      assert Jobs(done) == [];
    }
  }

  lemma SingleUnbroken(senders: seq<seq<Frame>>, s: State<Block>, t: nat)
    requires Consistent(BlockJobs(senders), s, BlockBytes) && forall k :: 0 <= k < |s.done| ==> s.done[k].0 < |senders|
    requires t < |senders| && forall u :: 0 <= u < |senders| && senders[u] != [] ==> u == t
    ensures Unbroken(Jobs(s.done))
  {
    forall k | 0 <= k < |s.done| ensures s.done[k].0 == t {
      ByCovers(s.done, k);
      var u := s.done[k].0;
      assert By(s.done, u) + s.todo[u] == AllBlocks(senders[u]);
    }
    OnlyBy(s.done, t);
    var mine := Jobs(s.done);
    assert AllBlocks(senders[t])[..|mine|] == mine;
    UnbrokenPrefix(senders[t], |mine|);
  }

  lemma SilentUnbroken(senders: seq<seq<Frame>>, s: State<Block>)
    requires Consistent(BlockJobs(senders), s, BlockBytes) && forall k :: 0 <= k < |s.done| ==> s.done[k].0 < |senders|
    requires NoPayloads(senders)
    ensures Unbroken(Jobs(s.done))
  {
    forall b | b in Jobs(s.done) ensures b.HeaderOf? && b.frame.payload == [] {
      var k :| 0 <= k < |s.done| && s.done[k].1 == b;
      ByCovers(s.done, k);
      var u := s.done[k].0;
      BlocksOfSilent(senders[u]);
      assert b in By(s.done, u) + s.todo[u];
    }
    HeadersUnbroken(Jobs(s.done));
  }

  // ---------------------------------------------------------------- several senders

  lemma {:induction false} BlocksAppend(a: seq<Frame>, b: seq<Frame>)
    ensures AllBlocks(a + b) == AllBlocks(a) + AllBlocks(b)
    decreases |a|
  {
    if a == [] {
      assert a + b == b;
    } else {
      assert (a + b)[1..] == a[1..] + b;
      BlocksAppend(a[1..], b);
    }
  }

  lemma UnbrokenAfter(f: Frame, rest: seq<Block>)
    ensures Unbroken(Blocks(f) + rest) <==> Unbroken(rest)
  {
    var all, k := Blocks(f) + rest, |Blocks(f)|;
    assert all[k..] == rest && all[0] == HeaderOf(f);
    assert k == 2 ==> all[1] == PayloadOf(f);
  }

  /** A header followed by another header is not whole. */
  lemma {:induction false} SplitNotUnbroken(frames: seq<Frame>, f: Frame, g: Frame)
    requires f.payload != []
    ensures !Unbroken(AllBlocks(frames) + [HeaderOf(f), HeaderOf(g)])
    decreases |frames|
  {
    var tail := [HeaderOf(f), HeaderOf(g)];
    if frames == [] {
      assert AllBlocks(frames) + tail == tail;
    } else {
      SplitNotUnbroken(frames[1..], f, g);
      UnbrokenAfter(frames[0], AllBlocks(frames[1..]) + tail);
      assert AllBlocks(frames) + tail == Blocks(frames[0]) + (AllBlocks(frames[1..]) + tail);
    }
  }

  /** The blocks of a thread up to the header of its frame `i`. */
  lemma HeaderAt(frames: seq<Frame>, i: nat)
    requires i < |frames|
    ensures var n := |AllBlocks(frames[..i])|;
            n < |AllBlocks(frames)| && AllBlocks(frames)[..n + 1] == AllBlocks(frames[..i]) + [HeaderOf(frames[i])]
  {
    var a, b := frames[..i], frames[i..];
    assert frames == a + b && b[0] == frames[i];
    BlocksAppend(a, b);
    var before, behind := AllBlocks(a), AllBlocks(b);
    assert behind[0] == HeaderOf(frames[i]);
    assert (before + behind)[..|before| + 1] == before + [behind[0]];
  }

  /** Thread `u` gets in between header and payload of thread `t`'s frame `i`. */
  lemma SeparatingRun(senders: seq<seq<Frame>>, t: nat, i: nat, u: nat) returns (steps: seq<Step>)
    requires t < |senders| && u < |senders| && t != u && senders[u] != []
    requires i < |senders[t]| && senders[t][i].payload != []
    ensures !Unbroken(Jobs(Run(Start(BlockJobs(senders)), steps, BlockBytes).done))
  {
    var s0, f, g := Start(BlockJobs(senders)), senders[t][i], senders[u][0];
    var before := AllBlocks(senders[t][..i]);
    HeaderAt(senders[t], i);
    HeaderAt(senders[u], 0);
    var a, s1 := JobsWritten(s0, t, |before| + 1, BlockBytes);
    var b, s2 := JobsWritten(s1, u, 1, BlockBytes);
    RunAppend(s0, a, b, BlockBytes);
    assert s1.todo[u] == AllBlocks(senders[u]);
    TwoHeaders(Jobs(s0.done), before, Jobs(s1.done), Jobs(s2.done), f, g);
    SplitNotUnbroken(senders[t][..i], f, g);
    steps := a + b;
  }

  lemma TwoHeaders(none: seq<Block>, before: seq<Block>, mid: seq<Block>, end: seq<Block>, f: Frame, g: Frame)
    requires none == [] && mid == none + (before + [HeaderOf(f)]) && end == mid + ([] + [HeaderOf(g)])
    ensures end == before + [HeaderOf(f), HeaderOf(g)]
  {
  }

  /** In every run the blocks written so far are those of whole frames, then at most the
      header of one more. */
  ghost predicate AlwaysUnbroken(senders: seq<seq<Frame>>) {
    forall steps :: Unbroken(Jobs(Run(Start(BlockJobs(senders)), steps, BlockBytes).done))
  }

  /** The device keeps its frames whole, in every interleaving, if and only if at most one
      thread sends or no frame has a payload. */
  lemma DeviceUnbrokenIff(senders: seq<seq<Frame>>)
    ensures AlwaysUnbroken(senders) <==> OneSender(senders) || NoPayloads(senders)
  {
    if OneSender(senders) || NoPayloads(senders) {
      forall steps ensures Unbroken(Jobs(Run(Start(BlockJobs(senders)), steps, BlockBytes).done)) {
        var s := Run(Start(BlockJobs(senders)), steps, BlockBytes);
        WireConsistent(BlockJobs(senders), steps, BlockBytes);
        DoneByThreads(BlockJobs(senders), steps, BlockBytes);
        if NoPayloads(senders) {
          SilentUnbroken(senders, s);
        } else {
          var t :| 0 <= t < |senders| && senders[t] != [];
          SingleUnbroken(senders, s, t);
        }
      }
    } else {
      var t, f :| 0 <= t < |senders| && f in senders[t] && f.payload != [];
      var i :| 0 <= i < |senders[t]| && senders[t][i] == f;
      var v, w :| 0 <= v < |senders| && 0 <= w < |senders| && senders[v] != [] && senders[w] != [] && v != w;
      var steps := SeparatingRun(senders, t, i, if v == t then w else v);
    }
  }

  // ---------------------------------------------------------------- what a receiver makes of it

  lemma {:induction false} JoinFirst<J>(job: J, jobs: seq<J>, bytes: J -> seq<byte>)
    ensures Join([job] + jobs, bytes) == bytes(job) + Join(jobs, bytes)
    decreases |jobs|
  {
    if jobs == [] {
      assert [job] + jobs == [job] && [job][..0] == [];
      assert Join([job], bytes) == [] + bytes(job);
    } else {
      var n := |jobs| - 1;
      assert ([job] + jobs)[..n + 1] == [job] + jobs[..n];
      JoinFirst(job, jobs[..n], bytes);
    }
  }

  lemma JoinBlocks(f: Frame, rest: seq<Block>)
    ensures Join(Blocks(f) + rest, BlockBytes) == FrameBytes(f) + Join(rest, BlockBytes)
  {
    if f.payload == [] {
      JoinFirst(HeaderOf(f), rest, BlockBytes);
    } else {
      var tail := [PayloadOf(f)] + rest;
      assert Blocks(f) + rest == [HeaderOf(f)] + tail;
      JoinFirst(HeaderOf(f), tail, BlockBytes);
      JoinFirst(PayloadOf(f), rest, BlockBytes);
    }
  }

  lemma {:induction false} JoinUnbroken(blocks: seq<Block>)
    requires Unbroken(blocks)
    ensures Join(blocks, BlockBytes) == Concat(Items(FramesIn(blocks))) + Join(Begun(blocks), BlockBytes)
    decreases |blocks|
  {
    if blocks != [] && (blocks[0].frame.payload == [] || |blocks| > 1) {
      var f, rest := UnbrokenFirst(blocks);
      JoinUnbroken(rest);
      JoinBlocks(f, rest);
      FirstItemOf(f, FramesIn(rest));
      Regroup(FrameBytes(f), Concat(Items(FramesIn(rest))), Join(Begun(rest), BlockBytes));
    }
  }

  lemma UnbrokenFirst(blocks: seq<Block>) returns (f: Frame, rest: seq<Block>)
    requires Unbroken(blocks) && blocks != [] && (blocks[0].frame.payload == [] || |blocks| > 1)
    ensures blocks == Blocks(f) + rest && Unbroken(rest) && |rest| < |blocks|
    ensures FramesIn(blocks) == [f] + FramesIn(rest) && Begun(blocks) == Begun(rest)
  {
    f := blocks[0].frame;
    rest := blocks[|Blocks(f)|..];
  }

  lemma FirstItemOf(f: Frame, frames: seq<Frame>)
    ensures Concat(Items([f] + frames)) == FrameBytes(f) + Concat(Items(frames))
  {
    assert Items([f] + frames) == [Whole(f)] + Items(frames);
    assert Items([f] + frames)[1..] == Items(frames);
  }

  /** Whole frames on the wire are what a receiver sees, and a header begun is left over. */
  lemma UnbrokenParses(blocks: seq<Block>)
    requires Unbroken(blocks) && forall b :: b in blocks ==> WellFormed(b.frame)
    ensures Parse(Join(blocks, BlockBytes)) == Parsed(Items(FramesIn(blocks)), Join(Begun(blocks), BlockBytes))
  {
    UnbrokenMeans(blocks);
    JoinUnbroken(blocks);
    var begun := Begun(blocks);
    assert !HasItem(Join(begun, BlockBytes)) by {
      if begun != [] {
        assert begun[0] in blocks && begun == [begun[0]] + [];
        JoinFirst(begun[0], [], BlockBytes);
        assert BlockBytes(begun[0]) == FrameBytes(begun[0].frame)[..4];
        ProperPrefixIncomplete(begun[0].frame, 4);
      }
    }
    FramesInWellFormed(blocks);
    ParseComplete(Items(FramesIn(blocks)), Join(begun, BlockBytes));
  }

  lemma {:induction false} FramesInWellFormed(blocks: seq<Block>)
    requires Unbroken(blocks) && forall b :: b in blocks ==> WellFormed(b.frame)
    ensures forall f :: f in FramesIn(blocks) ==> WellFormed(f)
    decreases |blocks|
  {
    if blocks != [] {
      assert blocks[0] in blocks;
      if blocks[0].frame.payload == [] {
        assert forall b :: b in blocks[1..] ==> b in blocks;
        FramesInWellFormed(blocks[1..]);
      } else if |blocks| > 1 {
        assert forall b :: b in blocks[2..] ==> b in blocks;
        FramesInWellFormed(blocks[2..]);
      }
    }
  }

  lemma {:induction false} JoinBehind(frames: seq<Frame>, rest: seq<Block>)
    ensures Join(AllBlocks(frames) + rest, BlockBytes) == Concat(Items(frames)) + Join(rest, BlockBytes)
    decreases |frames|
  {
    if frames == [] {
      assert AllBlocks(frames) + rest == rest;
    } else {
      var f, others := frames[0], frames[1..];
      assert frames == [f] + others;
      JoinBehind(others, rest);
      JoinBlocks(f, AllBlocks(others) + rest);
      assert AllBlocks(frames) + rest == Blocks(f) + (AllBlocks(others) + rest);
      FirstItemOf(f, others);
      Regroup(FrameBytes(f), Concat(Items(others)), Join(rest, BlockBytes));
    }
  }

  /** Behind a header a receiver takes the bytes that come next for the payload. */
  lemma HeaderThen(f: Frame, rest: seq<byte>)
    requires WellFormed(f) && |rest| >= |f.payload|
    ensures var wire := EncodeHeader(f.hdr) + rest;
            && HasItem(wire) && Parse(wire).items != []
            && (Parse(wire).items[0] == Whole(f) <==> f.payload <= rest)
  {
    var wire := EncodeHeader(f.hdr) + rest;
    HeaderRoundTrip(f.hdr, EncodeHeader(f.hdr));
    assert wire[..4] == EncodeHeader(f.hdr) && wire[4..] == rest;
    assert wire[4..4 + f.hdr.length] == rest[..f.hdr.length];
  }

  /** Any blocks of other threads between a frame's header and its payload, behind any whole
      frames and with anything after: the frames in front are seen, and the next item is
      the frame if and only if its payload happens to begin what follows its header. */
  lemma SeparatedFrameMisread(before: seq<Frame>, f: Frame, between: seq<Block>, after: seq<Block>)
    requires WellFormed(f) && forall g :: g in before ==> WellFormed(g)
    ensures var behind := between + ([PayloadOf(f)] + after);
            var items := Parse(Join(AllBlocks(before) + ([HeaderOf(f)] + behind), BlockBytes)).items;
            && |items| > |before| && items[..|before|] == Items(before)
            && (items[|before|] == Whole(f) <==> f.payload <= Join(behind, BlockBytes))
  {
    var behind := between + ([PayloadOf(f)] + after);
    JoinBehind(before, [HeaderOf(f)] + behind);
    JoinFirst(HeaderOf(f), behind, BlockBytes);
    JoinAppend(between, [PayloadOf(f)] + after);
    JoinFirst(PayloadOf(f), after, BlockBytes);
    HeaderThen(f, Join(behind, BlockBytes));
    ParseBehind(Items(before), EncodeHeader(f.hdr) + Join(behind, BlockBytes));
  }

  lemma {:induction false} JoinAppend(a: seq<Block>, b: seq<Block>)
    ensures Join(a + b, BlockBytes) == Join(a, BlockBytes) + Join(b, BlockBytes)
    decreases |a|
  {
    if a == [] {
      assert a + b == b;
    } else {
      assert a == [a[0]] + a[1..] && a + b == [a[0]] + (a[1..] + b);
      JoinFirst(a[0], a[1..] + b, BlockBytes);
      JoinFirst(a[0], a[1..], BlockBytes);
      JoinAppend(a[1..], b);
      Regroup(BlockBytes(a[0]), Join(a[1..], BlockBytes), Join(b, BlockBytes));
    }
  }
}
