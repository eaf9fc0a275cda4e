/** Threads writing to one wire under a mutex. A job is what one thread writes while
it holds the mutex: a whole frame on the C host, one block (a header, a payload or
an acknowledgement) on the device. */
module Transmit {
  import opened Wire
  import opened Stream

  /** `todo[t]` are thread t's jobs not yet finished; when `owner` is a thread, `pos`
      bytes of its first job are on the wire. `done` lists finished jobs by thread. */
  datatype State<J> = State(
    wire: seq<byte>, owner: Option<nat>, pos: nat, todo: seq<seq<J>>, done: seq<(nat, J)>)

  /** `Fill` is one `uart_fifo_fill` that takes up to `n` bytes. */
  datatype Step = Lock(t: nat) | Fill(t: nat, n: nat) | Unlock(t: nat)

  function Start<J>(jobs: seq<seq<J>>): State<J> {
    State([], None, 0, jobs, [])
  }

  /** A step that its thread cannot take leaves the state alone. */
  function Do<J>(s: State<J>, step: Step, bytes: J -> seq<byte>): State<J> {
    match step
    case Lock(t) =>
      if s.owner == None && t < |s.todo| && s.todo[t] != [] then s.(owner := Some(t), pos := 0) else s
    case Fill(t, n) =>
      if s.owner == Some(t) && t < |s.todo| && s.todo[t] != [] && s.pos <= |bytes(s.todo[t][0])| then
        var job := bytes(s.todo[t][0]);
        var end := if s.pos + n <= |job| then s.pos + n else |job|;
        s.(wire := s.wire + job[s.pos..end], pos := end)
      else s
    case Unlock(t) =>
      if s.owner == Some(t) && t < |s.todo| && s.todo[t] != [] && s.pos == |bytes(s.todo[t][0])| then
        State(s.wire, None, 0, s.todo[t := s.todo[t][1..]], s.done + [(t, s.todo[t][0])])
      else s
  }

  function Run<J>(s: State<J>, steps: seq<Step>, bytes: J -> seq<byte>): State<J> {
    if steps == [] then s else Do(Run(s, steps[..|steps| - 1], bytes), steps[|steps| - 1], bytes)
  }

  function Jobs<J>(done: seq<(nat, J)>): (js: seq<J>)
    ensures |js| == |done|
    ensures forall k :: 0 <= k < |done| ==> js[k] == done[k].1
  {
    seq(|done|, k requires 0 <= k < |done| => done[k].1)
  }

  function Join<J>(jobs: seq<J>, bytes: J -> seq<byte>): seq<byte> {
    if jobs == [] then [] else Join(jobs[..|jobs| - 1], bytes) + bytes(jobs[|jobs| - 1])
  }

  /** The finished jobs of one thread. */
  function By<J>(done: seq<(nat, J)>, t: nat): seq<J> {
    if done == [] then []
    else
      var before := By(done[..|done| - 1], t);
      if done[|done| - 1].0 == t then before + [done[|done| - 1].1] else before
  }

  /** What the mutex holder has written of its job. */
  function InProgress<J>(s: State<J>, bytes: J -> seq<byte>): seq<byte> {
    match s.owner
    case None => []
    case Some(t) =>
      if t < |s.todo| && s.todo[t] != [] && s.pos <= |bytes(s.todo[t][0])| then bytes(s.todo[t][0])[..s.pos] else []
  }

  /** The wire is whole jobs followed by the beginning of the mutex holder's, and every
      thread's jobs are written in its own order, none lost and none twice. */
  ghost predicate Consistent<J>(jobs: seq<seq<J>>, s: State<J>, bytes: J -> seq<byte>) {
    && s.wire == Join(Jobs(s.done), bytes) + InProgress(s, bytes)
    && |s.todo| == |jobs|
    && (forall t :: 0 <= t < |jobs| ==> By(s.done, t) + s.todo[t] == jobs[t])
    && (s.owner.Some? ==>
          s.owner.value < |s.todo| && s.todo[s.owner.value] != [] && s.pos <= |bytes(s.todo[s.owner.value][0])|)
  }

  lemma FillConsistent<J>(jobs: seq<seq<J>>, s: State<J>, t: nat, n: nat, bytes: J -> seq<byte>)
    requires Consistent(jobs, s, bytes) && s.owner == Some(t)
    ensures Consistent(jobs, Do(s, Fill(t, n), bytes), bytes)
  {
    var job := bytes(s.todo[t][0]);
    var end := if s.pos + n <= |job| then s.pos + n else |job|;
    assert job[..end] == job[..s.pos] + job[s.pos..end];
    var whole := Join(Jobs(s.done), bytes);
    assert whole + job[..s.pos] + job[s.pos..end] == whole + job[..end];
    assert Do(s, Fill(t, n), bytes) == s.(wire := s.wire + job[s.pos..end], pos := end);
  }

  lemma JobsSnoc<J>(done: seq<(nat, J)>, t: nat, job: J, bytes: J -> seq<byte>)
    ensures Jobs(done + [(t, job)]) == Jobs(done) + [job]
    ensures Join(Jobs(done + [(t, job)]), bytes) == Join(Jobs(done), bytes) + bytes(job)
  {
    assert Jobs(done + [(t, job)]) == Jobs(done) + [job];
    assert (Jobs(done) + [job])[..|done|] == Jobs(done);
  }

  lemma BySnoc<J>(done: seq<(nat, J)>, t: nat, job: J, u: nat)
    ensures By(done + [(t, job)], u) == if u == t then By(done, t) + [job] else By(done, u)
  {
    assert (done + [(t, job)])[..|done|] == done;
  }

  lemma MoveOver<J>(a: seq<J>, b: seq<J>)
    requires b != []
    ensures (a + [b[0]]) + b[1..] == a + b
  {
  }

  /** Thread `t`'s oldest job moves from what is left to what is done. */
  lemma MoveJob<J>(jobs: seq<seq<J>>, s: State<J>, s': State<J>, t: nat, u: nat)
    requires |s.todo| == |jobs| && t < |s.todo| && s.todo[t] != [] && u < |jobs|
    requires s'.todo == s.todo[t := s.todo[t][1..]] && s'.done == s.done + [(t, s.todo[t][0])]
    requires By(s.done, u) + s.todo[u] == jobs[u]
    ensures By(s'.done, u) + s'.todo[u] == jobs[u]
  {
    BySnoc(s.done, t, s.todo[t][0], u);
    if u == t {
      MoveOver(By(s.done, t), s.todo[t]);
    }
  }

  lemma UnlockedWire<J>(s: State<J>, t: nat, bytes: J -> seq<byte>)
    requires s.owner == Some(t) && t < |s.todo| && s.todo[t] != [] && s.pos == |bytes(s.todo[t][0])|
    requires s.wire == Join(Jobs(s.done), bytes) + InProgress(s, bytes)
    ensures s.wire == Join(Jobs(s.done + [(t, s.todo[t][0])]), bytes)
  {
    var job := s.todo[t][0];
    assert bytes(job)[..s.pos] == bytes(job);
    JobsSnoc(s.done, t, job, bytes);
  }

  lemma UnlockConsistent<J>(jobs: seq<seq<J>>, s: State<J>, t: nat, bytes: J -> seq<byte>)
    requires Consistent(jobs, s, bytes) && s.owner == Some(t) && s.pos == |bytes(s.todo[t][0])|
    ensures Consistent(jobs, Do(s, Unlock(t), bytes), bytes)
  {
    var s' := Do(s, Unlock(t), bytes);
    UnlockedWire(s, t, bytes);
    assert s'.wire + [] == s'.wire;
    forall u | 0 <= u < |jobs| ensures By(s'.done, u) + s'.todo[u] == jobs[u] {
      MoveJob(jobs, s, s', t, u);
    }
  }

  /** Any number of threads, any jobs, any interleaving and any FIFO behaviour. */
  lemma {:induction false} WireConsistent<J>(jobs: seq<seq<J>>, steps: seq<Step>, bytes: J -> seq<byte>)
    ensures Consistent(jobs, Run(Start(jobs), steps, bytes), bytes)
  {
    if steps != [] {
      var n := |steps| - 1;
      WireConsistent(jobs, steps[..n], bytes);
      var s := Run(Start(jobs), steps[..n], bytes);
      match steps[n]
      case Lock(_) =>
      case Fill(t, k) =>
        if s.owner == Some(t) {
          FillConsistent(jobs, s, t, k, bytes);
        }
      case Unlock(t) =>
        if s.owner == Some(t) && s.pos == |bytes(s.todo[t][0])| {
          UnlockConsistent(jobs, s, t, bytes);
        }
    }
  }

  lemma {:induction false} JoinIsConcat(frames: seq<Frame>)
    ensures Join(frames, FrameBytes) == Concat(Items(frames))
  {
    if frames != [] {
      var n := |frames| - 1;
      JoinIsConcat(frames[..n]);
      assert Items(frames) == Items(frames[..n]) + [Whole(frames[n])];
      ConcatAppend(Items(frames[..n]), [Whole(frames[n])]);
      assert Concat([Whole(frames[n])]) == FrameBytes(frames[n]);
    }
  }

  lemma ProperPrefixIncomplete(f: Frame, k: nat)
    requires WellFormed(f) && k < |FrameBytes(f)|
    ensures !HasItem(FrameBytes(f)[..k])
  {
    var p := FrameBytes(f)[..k];
    HeaderRoundTrip(f.hdr, EncodeHeader(f.hdr));
    if k >= 4 {
      assert p[..4] == EncodeHeader(f.hdr);
    }
  }

  ghost predicate AllWellFormed(jobs: seq<seq<Frame>>) {
    forall t, k :: 0 <= t < |jobs| && 0 <= k < |jobs[t]| ==> WellFormed(jobs[t][k])
  }

  lemma {:induction false} ByCovers<J>(done: seq<(nat, J)>, k: nat)
    requires k < |done|
    ensures done[k].1 in By(done, done[k].0)
  {
    if k < |done| - 1 {
      ByCovers(done[..|done| - 1], k);
    }
  }

  lemma ConsistentWellFormed(jobs: seq<seq<Frame>>, s: State<Frame>)
    requires AllWellFormed(jobs) && Consistent(jobs, s, FrameBytes)
    requires forall k :: 0 <= k < |s.done| ==> s.done[k].0 < |jobs|
    ensures forall f :: f in Jobs(s.done) ==> WellFormed(f)
    ensures s.owner.Some? ==> WellFormed(s.todo[s.owner.value][0])
  {
    forall k | 0 <= k < |s.done| ensures WellFormed(s.done[k].1) {
      ByCovers(s.done, k);
      var t := s.done[k].0;
      assert s.done[k].1 in By(s.done, t) + s.todo[t];
    }
    if s.owner.Some? {
      var t := s.owner.value;
      assert s.todo[t][0] in By(s.done, t) + s.todo[t];
    }
  }

  lemma {:induction false} DoneByThreads<J>(jobs: seq<seq<J>>, steps: seq<Step>, bytes: J -> seq<byte>)
    ensures var s := Run(Start(jobs), steps, bytes);
            |s.todo| == |jobs| && forall k :: 0 <= k < |s.done| ==> s.done[k].0 < |jobs|
  {
    if steps != [] {
      DoneByThreads(jobs, steps[..|steps| - 1], bytes);
    }
  }

  /** The frames that are completely on the wire, the mutex holder's included. */
  function OnWire(s: State<Frame>): seq<Frame> {
    if s.owner.Some? && s.owner.value < |s.todo| && s.todo[s.owner.value] != []
       && s.pos == |FrameBytes(s.todo[s.owner.value][0])|
    then Jobs(s.done) + [s.todo[s.owner.value][0]] else Jobs(s.done)
  }

  lemma ParseJoined(frames: seq<Frame>, tail: seq<byte>)
    requires (forall f :: f in frames ==> WellFormed(f)) && !HasItem(tail)
    ensures Parse(Join(frames, FrameBytes) + tail) == Parsed(Items(frames), tail)
  {
    JoinIsConcat(frames);
    ParseComplete(Items(frames), tail);
  }

  /** The C host: however its threads interleave data frames and acknowledgements, a
      receiver parsing the wire at any moment sees exactly the frames sent so far,
      whole and in the order they got the mutex, then the beginning of one more. */
  lemma HostWireParses(jobs: seq<seq<Frame>>, steps: seq<Step>)
    requires AllWellFormed(jobs)
    ensures var s := Run(Start(jobs), steps, FrameBytes);
            && Parse(s.wire).items == Items(OnWire(s))
            && (s.owner == None ==> Parse(s.wire).rest == [])
  {
    WireConsistent(jobs, steps, FrameBytes);
    DoneByThreads(jobs, steps, FrameBytes);
    var s := Run(Start(jobs), steps, FrameBytes);
    ConsistentWellFormed(jobs, s);
    var frames, tail := Jobs(s.done), InProgress(s, FrameBytes);
    if s.owner.Some? && s.pos == |FrameBytes(s.todo[s.owner.value][0])| {
      var f := s.todo[s.owner.value][0];
      assert tail == FrameBytes(f) && (frames + [f])[..|frames|] == frames;
      ParseJoined(frames + [f], []);
      assert Join(frames + [f], FrameBytes) + [] == s.wire;
    } else {
      if s.owner.Some? {
        ProperPrefixIncomplete(s.todo[s.owner.value][0], s.pos);
      }
      ParseJoined(frames, tail);
    }
  }

  lemma {:induction false} RunAppend<J>(s: State<J>, a: seq<Step>, b: seq<Step>, bytes: J -> seq<byte>)
    ensures Run(s, a + b, bytes) == Run(Run(s, a, bytes), b, bytes)
  {
    if b == [] {
      assert a + b == a;
    } else {
      assert (a + b)[..|a + b| - 1] == a + b[..|b| - 1];
      RunAppend(s, a, b[..|b| - 1], bytes);
    }
  }

  /** A thread that finds the mutex free writes its next job in one go. */
  function OneJob(t: nat, n: nat): seq<Step> {
    [Lock(t), Fill(t, n), Unlock(t)]
  }

  lemma OneJobWrites<J>(s: State<J>, t: nat, bytes: J -> seq<byte>)
    requires s.owner == None && t < |s.todo| && s.todo[t] != []
    ensures var job := s.todo[t][0];
            Run(s, OneJob(t, |bytes(job)|), bytes) ==
            State(s.wire + bytes(job), None, 0, s.todo[t := s.todo[t][1..]], s.done + [(t, job)])
  {
    var data := bytes(s.todo[t][0]);
    var s1 := s.(owner := Some(t), pos := 0);
    var s2 := s1.(wire := s.wire + data, pos := |data|);
    assert data[0..|data|] == data;
    assert [Lock(t)][..0] == [] && Run(s, [Lock(t)], bytes) == s1;
    assert [Lock(t), Fill(t, |data|)][..1] == [Lock(t)];
    assert Run(s, [Lock(t), Fill(t, |data|)], bytes) == s2;
    assert OneJob(t, |data|)[..2] == [Lock(t), Fill(t, |data|)];
  }

  /** One more job: what is left, and what is on the wire. */
  lemma OneMoreJob<J>(done: seq<J>, todo: seq<J>, n: nat)
    requires 0 < n <= |todo|
    ensures todo[n - 1..][0] == todo[n - 1] && todo[n - 1..][1..] == todo[n..]
    ensures (done + todo[..n - 1]) + [todo[n - 1]] == done + todo[..n]
  {
    assert todo[..n] == todo[..n - 1] + [todo[n - 1]];
  }

  /** A thread writes its next `n` jobs undisturbed. */
  lemma {:induction false} JobsWritten<J>(s: State<J>, t: nat, n: nat, bytes: J -> seq<byte>)
    returns (steps: seq<Step>, s': State<J>)
    requires s.owner == None && t < |s.todo| && n <= |s.todo[t]|
    ensures s' == Run(s, steps, bytes) && s'.owner == None && s'.todo == s.todo[t := s.todo[t][n..]]
    ensures Jobs(s'.done) == Jobs(s.done) + s.todo[t][..n]
    decreases n
  {
    steps, s' := [], s;
    if n == 0 {
      assert s.todo[t][0..] == s.todo[t] && Jobs(s.done) + s.todo[t][..0] == Jobs(s.done);
    } else {
      var mid;
      steps, mid := JobsWritten(s, t, n - 1, bytes);
      OneMoreJob(Jobs(s.done), s.todo[t], n);
      s' := NextJobWritten(mid, t, bytes);
      var more := OneJob(t, |bytes(mid.todo[t][0])|);
      RunAppend(s, steps, more, bytes);
      steps := steps + more;
    }
  }

  lemma NextJobWritten<J>(s: State<J>, t: nat, bytes: J -> seq<byte>) returns (s': State<J>)
    requires s.owner == None && t < |s.todo| && s.todo[t] != []
    ensures s' == Run(s, OneJob(t, |bytes(s.todo[t][0])|), bytes) && s'.owner == None
    ensures s'.todo == s.todo[t := s.todo[t][1..]] && Jobs(s'.done) == Jobs(s.done) + [s.todo[t][0]]
  {
    OneJobWrites(s, t, bytes);
    JobsSnoc(s.done, t, s.todo[t][0], bytes);
    s' := Run(s, OneJob(t, |bytes(s.todo[t][0])|), bytes);
  }
}
