/** The two directions of the link as queues of frames, the device between them,
and everything that can happen there while a host waits. */
module Link {
  import opened Wire
  import opened Protocol

  /** Frames on their way to the device and to the host. */
  datatype World = World(up: seq<Frame>, down: seq<Frame>, dev: Device)

  datatype Event =
    | DeviceTakes                 // the device handles the oldest frame sent to it
    | LoseUp(at: nat)             // a frame is lost on the way to the device
    | LoseDown(at: nat)           // a frame is lost on the way to the host
    | ClientEmits(frame: Frame)   // a client of the device sends an asynchronous frame
    | DeviceReset                 // the device restarts its counters
    | HostReads                   // the host's reader gets to run
    | InTransit(count: nat)       // at the host's next drain the newest frames have not arrived yet
    | Deadline                    // the host's deadline passes

  /** What the device's client answers to an accepted command. */
  type Answers = Frame -> seq<Frame>

  function Without(s: seq<Frame>, at: nat): seq<Frame> {
    if at < |s| then s[..at] + s[at + 1..] else s
  }

  function Take(w: World, client: Answers): World {
    if w.up == [] then w
    else
      var r := React(w.dev, w.up[0]);
      var answers := if |r.dev.accepted| > |w.dev.accepted| then client(w.up[0]) else [];
      World(w.up[1..], w.down + r.replies + answers, r.dev)
  }

  function Apply(w: World, e: Event, client: Answers): World {
    match e
    case DeviceTakes => Take(w, client)
    case LoseUp(at) => w.(up := Without(w.up, at))
    case LoseDown(at) => w.(down := Without(w.down, at))
    case ClientEmits(f) => w.(down := w.down + [f])
    case DeviceReset => w.(dev := Reset(w.dev))
    case _ => w
  }

  function ApplyAll(w: World, events: seq<Event>, client: Answers): World {
    if events == [] then w
    else Apply(ApplyAll(w, events[..|events| - 1], client), events[|events| - 1], client)
  }

  /** Clients never forge a sequence refusal or a PROTOCOL_INFO frame. */
  predicate Benign(f: Frame) {
    !IsRefusal(f) && f.hdr.typ != TYPE_PROTOCOL_INFO
  }

  ghost predicate Honest(client: Answers) {
    forall f, g :: g in client(f) ==> Benign(g)
  }

  ghost predicate HonestEvents(events: seq<Event>) {
    forall e :: e in events ==> e.ClientEmits? ==> Benign(e.frame)
  }

  lemma DataOfWithout(s: seq<Frame>, at: nat)
    ensures |DataOf(Without(s, at))| <= |DataOf(s)|
    ensures forall f :: f in DataOf(Without(s, at)) ==> f in DataOf(s)
  {
    if at < |s| {
      assert s == s[..at] + ([s[at]] + s[at + 1..]);
      DataOfAppend(s[..at], [s[at]] + s[at + 1..]);
      DataOfAppend([s[at]], s[at + 1..]);
      DataOfAppend(s[..at], s[at + 1..]);
    }
  }

  lemma DataOfFirst(s: seq<Frame>)
    requires s != []
    ensures DataOf(s) == if IsData(s[0]) then [s[0]] + DataOf(s[1..]) else DataOf(s[1..])
  {
    assert s == [s[0]] + s[1..];
    DataOfAppend([s[0]], s[1..]);
    assert [s[0]][..0] == [];
    assert DataOf([s[0]]) == if IsData(s[0]) then [s[0]] else [];
    assert [] + DataOf(s[1..]) == DataOf(s[1..]);
  }

  lemma DataOfSnoc(s: seq<Frame>, f: Frame)
    ensures DataOf(s + [f]) == if IsData(f) then DataOf(s) + [f] else DataOf(s)
  {
    assert (s + [f])[..|s|] == s;
  }

  /** No device takes a command without a client, so none gets stuck. */
  ghost predicate AllWired(w: World) {
    !w.dev.stuck && forall f :: f in w.up && IsData(f) ==> f.hdr.typ in w.dev.wired
  }

  lemma WithoutIndex(s: seq<Frame>, at: nat)
    ensures forall i :: 0 <= i < |Without(s, at)| ==>
              Without(s, at)[i] == s[if at < |s| && i >= at then i + 1 else i]
  {
  }

  function CountIf(s: seq<Frame>, p: Frame -> bool): nat {
    if s == [] then 0 else CountIf(s[..|s| - 1], p) + (if p(s[|s| - 1]) then 1 else 0)
  }

  lemma {:induction false} CountAppend(a: seq<Frame>, b: seq<Frame>, p: Frame -> bool)
    ensures CountIf(a + b, p) == CountIf(a, p) + CountIf(b, p)
  {
    if b == [] {
      assert a + b == a;
    } else {
      assert (a + b)[..|a + b| - 1] == a + b[..|b| - 1];
      CountAppend(a, b[..|b| - 1], p);
    }
  }

  lemma CountFirst(s: seq<Frame>, p: Frame -> bool)
    requires s != []
    ensures CountIf(s, p) == CountIf(s[1..], p) + (if p(s[0]) then 1 else 0)
  {
    assert s == [s[0]] + s[1..];
    CountAppend([s[0]], s[1..], p);
    assert [s[0]][..0] == [];
  }

  lemma {:induction false} CountNone(s: seq<Frame>, p: Frame -> bool)
    ensures CountIf(s, p) == 0 <==> forall f :: f in s ==> !p(f)
  {
    if s != [] {
      var init, last := s[..|s| - 1], s[|s| - 1];
      CountNone(init, p);
      assert s == init + [last] && last in s;
    }
  }

  /** What the device adds to the downward queue for one frame. */
  function Tail(w: World, client: Answers): seq<Frame>
    requires w.up != []
  {
    var r := React(w.dev, w.up[0]);
    r.replies + (if |r.dev.accepted| > |w.dev.accepted| then client(w.up[0]) else [])
  }

  lemma TakeTail(w: World, client: Answers)
    requires w.up != []
    ensures Take(w, client) == World(w.up[1..], w.down + Tail(w, client), React(w.dev, w.up[0]).dev)
  {
    var r := React(w.dev, w.up[0]);
    var answers := if |r.dev.accepted| > |w.dev.accepted| then client(w.up[0]) else [];
    assert w.down + r.replies + answers == w.down + (r.replies + answers);
  }

  /** What a host gets by waiting: a frame, the end of its patience (`late`), or
      nothing because nothing more can come. */
  datatype Wait = Wait(got: Option<Frame>, late: bool, w: World, script: seq<Event>)

  function Scripted(w: World, script: seq<Event>, client: Answers): Wait
    decreases |script|
  {
    if script == [] then Wait(None, false, w, [])
    else if script[0] == Deadline then Wait(None, true, w, script[1..])
    else if script[0] == HostReads && w.down != [] then
      Wait(Some(w.down[0]), false, w.(down := w.down[1..]), script[1..])
    else Scripted(Apply(w, script[0], client), script[1..], client)
  }

  /** A lossless, prompt link: the device runs until something is there to read. */
  function Prompted(w: World, client: Answers): World
    decreases |w.up|
  {
    if w.down != [] || w.up == [] then w else Prompted(Take(w, client), client)
  }

  function Awaited(w: World, script: seq<Event>, client: Answers): Wait {
    var s := Scripted(w, script, client);
    if s.got.Some? || s.late then s
    else
      var p := Prompted(s.w, client);
      if p.down == [] then Wait(None, false, p, s.script)
      else Wait(Some(p.down[0]), false, p.(down := p.down[1..]), s.script)
  }

  lemma {:induction false} ScriptedLess(w: World, script: seq<Event>, client: Answers)
    ensures var s := Scripted(w, script, client);
            && (s.got == None && !s.late ==> s.script == [])
            && (s.got.Some? || s.late ==> |s.script| < |script|)
    decreases |script|
  {
    if script != [] {
      ScriptedLess(Apply(w, script[0], client), script[1..], client);
    }
  }

  lemma {:induction false} PromptedLess(w: World, client: Answers)
    ensures var p := Prompted(w, client);
            p == w || |p.up| < |w.up|
    decreases |w.up|
  {
    if w.down == [] && w.up != [] {
      PromptedLess(Take(w, client), client);
    }
  }

  /** Reading a frame leaves the link less to do. */
  lemma AwaitedLess(w: World, script: seq<Event>, client: Answers)
    ensures var a := Awaited(w, script, client);
            a.got.Some? ==> Less(|a.script|, a.w, |script|, w)
  {
    ScriptedLess(w, script, client);
    PromptedLess(Scripted(w, script, client).w, client);
  }

  /** A wait that ends without a frame after `k` events of the script: the deadline was the
      last of them, or everything is used up and nothing is in flight. */
  ghost predicate Expired(script: seq<Event>, k: nat, w: World) {
    || (0 < k <= |script| && script[k - 1] == Deadline)
    || (k == |script| && w.up == [] && w.down == [])
  }

  lemma {:induction false} ScriptedUpTo(w: World, script: seq<Event>, client: Answers) returns (k: nat)
    ensures var s := Scripted(w, script, client);
            && k <= |script| && s.script == script[k..]
            && (s.late ==> s.got == None && k > 0 && script[k - 1] == Deadline)
    decreases |script|
  {
    k := 0;
    if script != [] {
      k := 1;
      if script[0] != Deadline && !(script[0] == HostReads && w.down != []) {
        var m := ScriptedUpTo(Apply(w, script[0], client), script[1..], client);
        assert script[1..][m..] == script[m + 1..] && (m > 0 ==> script[1..][m - 1] == script[m]);
        k := m + 1;
      }
    }
  }

  lemma {:induction false} PromptedEmpty(w: World, client: Answers)
    ensures var p := Prompted(w, client);
            p.down == [] ==> p.up == []
    decreases |w.up|
  {
    if w.down == [] && w.up != [] {
      PromptedEmpty(Take(w, client), client);
    }
  }

  /** A host waits in vain only until the deadline or until nothing is left. */
  lemma AwaitedUpTo(w: World, script: seq<Event>, client: Answers) returns (k: nat)
    ensures var a := Awaited(w, script, client);
            && k <= |script| && a.script == script[k..]
            && (a.got == None ==> Expired(script, k, a.w))
  {
    k := ScriptedUpTo(w, script, client);
    ScriptedLess(w, script, client);
    PromptedEmpty(Scripted(w, script, client).w, client);
  }

  /** `k` events of `script` were used up, and if `late` that is why the wait ended. */
  ghost predicate Used(script: seq<Event>, k: nat, rest: seq<Event>, w: World, late: bool) {
    k <= |script| && rest == script[k..] && (late ==> Expired(script, k, w))
  }

  lemma UsedTwice(script: seq<Event>, k: nat, mid: seq<Event>, v: World, m: nat, rest: seq<Event>, w: World, late: bool)
    requires Used(script, k, mid, v, false) && Used(mid, m, rest, w, late)
    ensures Used(script, k + m, rest, w, late)
  {
    assert script[k..][m..] == script[k + m..];
    assert m > 0 ==> mid[m - 1] == script[k + m - 1];
  }

  lemma {:induction false} ScriptedIsWaited(w: World, script: seq<Event>, client: Answers) returns (events: seq<Event>)
    ensures var s := Scripted(w, script, client);
            && Waited(w, events, s.got, s.w, client)
            && (forall e :: e in events ==> e in script)
            && (forall e :: e in s.script ==> e in script)
            && (s.got == None && !s.late ==> s.script == [])
    decreases |script|
  {
    events := [];
    if script != [] && script[0] != Deadline && !(script[0] == HostReads && w.down != []) {
      events := ScriptedIsWaited(Apply(w, script[0], client), script[1..], client);
      assert forall e :: e in script[1..] ==> e in script;
      assert script[0] in script;
      Snoc(w, [], script[0], client);
      assert [] + [script[0]] == [script[0]];
      ApplyAllAppend(w, [script[0]], events, client);
      events := [script[0]] + events;
    } else if script != [] {
      assert forall e :: e in script[1..] ==> e in script;
      if script[0] == HostReads {
        assert w.down == [w.down[0]] + w.down[1..];
      }
    }
  }

  lemma {:induction false} PromptedIsReached(w: World, client: Answers) returns (events: seq<Event>)
    ensures Prompted(w, client) == ApplyAll(w, events, client)
    ensures forall e :: e in events ==> e == DeviceTakes
    decreases |w.up|
  {
    events := [];
    if w.down == [] && w.up != [] {
      events := PromptedIsReached(Take(w, client), client);
      Snoc(w, [], DeviceTakes, client);
      assert [] + [DeviceTakes] == [DeviceTakes];
      ApplyAllAppend(w, [DeviceTakes], events, client);
      events := [DeviceTakes] + events;
    }
  }

  /** Whatever a host waits through is a sequence of events, then perhaps a read. */
  lemma AwaitedIsWaited(w: World, script: seq<Event>, client: Answers) returns (events: seq<Event>)
    ensures var a := Awaited(w, script, client);
            && Waited(w, events, a.got, a.w, client)
            && (forall e :: e in events ==> e in script || e == DeviceTakes)
            && (forall e :: e in a.script ==> e in script)
            && (script == [] ==> a.script == [] && forall e :: e in events ==> e == DeviceTakes)
  {
    events := ScriptedIsWaited(w, script, client);
    var s := Scripted(w, script, client);
    if s.got == None && !s.late {
      var more := PromptedIsReached(s.w, client);
      ApplyAllAppend(w, events, more, client);
      events := events + more;
      var p := Prompted(s.w, client);
      assert p.down != [] ==> p.down == [p.down[0]] + p.down[1..];
    }
  }

  /** The part of the link a host sees while it waits: the events it sits through,
      then perhaps one frame it reads. */
  ghost predicate Waited(w: World, events: seq<Event>, got: Option<Frame>, w': World, client: Answers) {
    var mid := ApplyAll(w, events, client);
    match got
    case None => w' == mid
    case Some(f) => mid.down == [f] + w'.down && w' == mid.(down := w'.down)
  }

  function Log(got: Option<Frame>): seq<Frame> {
    match got case None => [] case Some(f) => [f]
  }

  /** The link has less left to do: what bounds a host's read loop. */
  ghost predicate Less(script: nat, w: World, script': nat, w': World) {
    || script < script'
    || (script == script' && |w.up| < |w'.up|)
    || (script == script' && |w.up| == |w'.up| && |w.down| < |w'.down|)
  }

  /** A link with a script of things to come. When the script is used up the link is
      lossless and prompt: the device handles what it has been sent, and the deadline
      passes only when nothing more can arrive. */
  class Port {
    var w: World
    var script: seq<Event>
    const client: Answers
    /** The frames handed to the host so far, and those it has sent. */
    var handed: seq<Frame>
    var wrote: seq<Frame>

    constructor (w: World, script: seq<Event>, client: Answers)
      ensures this.w == w && this.script == script && this.client == client && handed == wrote == []
    {
      this.w, this.script, this.client, handed, wrote := w, script, client, [], [];
    }

    method Send(f: Frame)
      modifies this`w, this`wrote
      ensures w == old(w).(up := old(w.up) + [f]) && wrote == old(wrote) + [f]
    {
      w, wrote := w.(up := w.up + [f]), wrote + [f];
    }

    /** The lossless, prompt link: what is waiting is read, else the device is let
        run, until nothing is left. */
    method AwaitPrompt() returns (got: Option<Frame>)
      modifies this`w, this`handed
      ensures handed == old(handed) + Log(got)
      ensures var p := Prompted(old(w), client);
              if p.down == [] then got == None && w == p
              else got == Some(p.down[0]) && w == p.(down := p.down[1..])
    {
      while w.down == []
        invariant Prompted(w, client) == Prompted(old(w), client) && handed == old(handed)
        decreases |w.up|
      {
        if w.up == [] {
          return None;
        }
        w := Take(w, client);
      }
      handed := handed + [w.down[0]];
      got, w := Some(w.down[0]), w.(down := w.down[1..]);
    }

    /** Runs the script up to the next frame the host reads, the deadline, or the end. */
    method AwaitScripted() returns (got: Option<Frame>, late: bool)
      modifies this`w, this`script, this`handed
      ensures handed == old(handed) + Log(got)
      ensures Wait(got, late, w, script) == Scripted(old(w), old(script), client)
    {
      while script != []
        invariant Scripted(w, script, client) == Scripted(old(w), old(script), client) && handed == old(handed)
        decreases |script|
      {
        var e := script[0];
        script := script[1..];
        if e == Deadline {
          return None, true;
        } else if e == HostReads && w.down != [] {
          handed := handed + [w.down[0]];
          got, late, w := Some(w.down[0]), false, w.(down := w.down[1..]);
          return;
        }
        w := Apply(w, e, client);
      }
      got, late := None, false;
    }

    /** Waits for the next frame, or for the deadline. */
    method Await() returns (got: Option<Frame>)
      modifies this`w, this`script, this`handed
      ensures handed == old(handed) + Log(got)
      ensures var a := Awaited(old(w), old(script), client);
              got == a.got && w == a.w && script == a.script
    {
      var late;
      got, late := AwaitScripted();
      if got == None && !late {
        got := AwaitPrompt();
      }
    }

    /** Discards what has arrived. Frames the script says are still in transit stay. */
    method Drain()
      modifies this`w, this`script
      ensures w == old(w).(down := Outliving(old(w.down), old(script)))
      ensures script == AfterDrain(old(script))
    {
      w := w.(down := Outliving(w.down, script));
      script := AfterDrain(script);
    }
  }

  /** The part of `down` that a drain leaves: the newest frames still in transit. */
  function Outliving(down: seq<Frame>, script: seq<Event>): seq<Frame> {
    if script == [] || !script[0].InTransit? then []
    else if script[0].count >= |down| then down
    else down[|down| - script[0].count..]
  }

  function AfterDrain(script: seq<Event>): seq<Event> {
    if script != [] && script[0].InTransit? then script[1..] else script
  }

  lemma Associative(a: seq<Frame>, b: seq<Frame>, c: seq<Frame>)
    ensures (a + b) + c == a + (b + c)
  {
  }

  lemma Snoc(w: World, events: seq<Event>, e: Event, client: Answers)
    ensures ApplyAll(w, events + [e], client) == Apply(ApplyAll(w, events, client), e, client)
  {
    assert (events + [e])[..|events|] == events;
  }

  lemma {:induction false} ApplyAllAppend(w: World, a: seq<Event>, b: seq<Event>, client: Answers)
    ensures ApplyAll(w, a + b, client) == ApplyAll(ApplyAll(w, a, client), b, client)
  {
    if b == [] {
      assert a + b == a;
    } else {
      var n := |b| - 1;
      assert (a + b)[..|a + b| - 1] == a + b[..n];
      ApplyAllAppend(w, a, b[..n], client);
    }
  }
}
