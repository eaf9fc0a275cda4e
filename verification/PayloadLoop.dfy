/** The work handler's loop for a type with a client, as a relation on values: what one
turn does, what a whole run amounts to, and what that means for the message the
client gets and for whatever follows the frame. */
module PayloadLoop {
  import opened Wire
  import opened Protocol
  import opened Landing

  /** The work handler's whole state as a value. */
  datatype Snap = Snap(
    state: ParsingState, hdr: Header, bytesRead: nat, partial: seq<byte>, dev: Device, sent: seq<Frame>,
    mem: seq<byte>, fill: nat, rx: seq<byte>, advancing: bool, capacity: nat, greedy: bool)
  {
    function Base(): nat { if advancing then fill else 0 }

    /** Where pieces of a payload land for this client. */
    function Landed(mem: seq<byte>, at: nat, parts: seq<seq<byte>>): seq<byte> {
      if advancing then Land(mem, at, 2, parts) else Land(mem, at, 1, parts)
    }

    function Need(): int { hdr.length - bytesRead }

    predicate CanAcquire() { Base() + Need() <= capacity }

    /** A data frame of a wired type is in its payload stage, or has just left it. */
    ghost predicate Reading() {
      && |mem| == capacity + MAX_PAYLOAD_LEN
      && hdr.typ in dev.wired && hdr.typ != TYPE_PROTOCOL_INFO && !dev.stuck
      && 0 < hdr.length <= MAX_PAYLOAD_LEN && bytesRead < hdr.length
    }
  }

  /** `n` more payload bytes are in the buffer: they are committed, or the whole frame
      is judged. The header, and with it the length, stays. */
  function Accounted(s: Snap, n: nat): Snap
    requires |s.mem| >= s.hdr.length
  {
    if n < s.Need() then
      s.(bytesRead := s.bytesRead + n, fill := s.fill + if s.advancing then n else 0)
    else
      var r := React(s.dev, Frame(s.hdr, s.mem[..s.hdr.length]));
      s.(state := Type, bytesRead := 0, partial := [], dev := r.dev, sent := s.sent + r.replies,
         fill := if s.advancing && s.dev.rx == s.hdr.number then 0 else s.fill)
  }

  /** `got` has been read into the client's buffer. */
  function Filled(s: Snap, got: seq<byte>): Snap
    requires got <= s.rx
  {
    s.(rx := s.rx[|got|..], mem := Store(s.mem, s.Base() + s.bytesRead, got))
  }

  function OutOfBuffers(s: Snap): Snap {
    s.(state := Type, bytesRead := 0, partial := [],
       sent := s.sent + [Ack(s.hdr.typ, s.hdr.number, OUT_OF_BUFFERS, true)])
  }

  /** One turn of the work handler's loop for a wired type takes `s` to `t`, reading
      `got`; `again` is false when the turn ends in a `break`. */
  ghost predicate Turned(s: Snap, t: Snap, again: bool, got: seq<byte>)
    requires s.Reading()
  {
    && got <= s.rx && |got| <= s.Need()
    && (again <==> got != [])
    && if !s.CanAcquire() then got == [] && t == OutOfBuffers(s)
       else if s.rx == [] then got == [] && t == s
       else
         && got != [] && t == Accounted(Filled(s, got), |got|)
         && (s.greedy ==> |got| == s.Need() || t.rx == [])
  }

  /** A client without room: the frame is refused under its own number, and neither the
      FIFO nor the buffer nor the counters are touched. */
  lemma NoRoomRefused(s: Snap, t: Snap, again: bool, got: seq<byte>)
    requires s.Reading() && Turned(s, t, again, got)
    requires s.hdr.length - s.bytesRead > s.capacity - (if s.advancing then s.fill else 0)
    ensures !again && t.rx == s.rx && t.mem == s.mem && t.dev == s.dev && t.fill == s.fill && t.state == Type
    ensures |t.sent| == |s.sent| + 1 && s.sent <= t.sent
    ensures Names(t.sent[|s.sent|], s.hdr.typ, s.hdr.number, OUT_OF_BUFFERS, true)
  {
  }

  lemma TurnedTakes(s: Snap, t: Snap, again: bool, got: seq<byte>)
    requires s.Reading() && Turned(s, t, again, got)
    ensures |t.rx| == |s.rx| - |got|
  {
  }

  // ---------------------------------------------------------------- the frame itself

  /** The frame in progress was begun with the client's address at `at` and its buffer
      holding `mem`, and has been read as `parts` so far. */
  ghost predicate Trail(mem: seq<byte>, at: nat, parts: seq<seq<byte>>, s: Snap) {
    && s.Reading() && |mem| == |s.mem| && at + s.hdr.length <= s.capacity
    && s.bytesRead == |Flatten(parts)| && NonEmpty(parts)
    && s.mem == s.Landed(mem, at, parts)
    && (if s.advancing then s.fill == at + s.bytesRead else at == 0)
  }

  lemma TrailStarts(s: Snap)
    requires s.Reading() && s.bytesRead == 0 && s.CanAcquire()
    ensures Trail(s.mem, s.Base(), [], s)
  {
  }

  /** The state when the whole payload has been read as `parts`: the frame is judged on
      what has landed at the start of the buffer, and `rx` is what follows it. */
  function Completed(s: Snap, mem: seq<byte>, at: nat, parts: seq<seq<byte>>, rx: seq<byte>): Snap
    requires parts != []
  {
    var landed := s.Landed(mem, at, parts);
    var message := if |landed| >= s.hdr.length then landed[..s.hdr.length] else [];
    var r := React(s.dev, Frame(s.hdr, message));
    s.(state := Type, bytesRead := 0, partial := [], dev := r.dev, sent := s.sent + r.replies, mem := landed, rx := rx,
       fill := if !s.advancing then s.fill else if s.dev.rx == s.hdr.number then 0
               else at + Start(parts, |parts| - 1))
  }

  /** Where a turn writes: behind what the client counted plus what the handler counted. */
  lemma TurnLands(mem: seq<byte>, at: nat, parts: seq<seq<byte>>, s: Snap, got: seq<byte>)
    requires s.mem == s.Landed(mem, at, parts) && s.bytesRead == |Flatten(parts)|
    requires if s.advancing then s.fill == at + s.bytesRead else at == 0
    ensures s.Landed(mem, at, parts + [got]) == Store(s.mem, s.Base() + s.bytesRead, got)
  {
    if s.advancing {
      LandNextAdvancing(mem, at, parts, got, s.mem, s.Base() + s.bytesRead);
    } else {
      LandNextFixed(mem, at, parts, got, s.mem, s.Base() + s.bytesRead);
    }
  }

  lemma TrailWrites(mem: seq<byte>, at: nat, parts: seq<seq<byte>>, s: Snap, got: seq<byte>)
    requires Trail(mem, at, parts, s) && got != [] && |got| <= s.Need()
    ensures Store(s.mem, s.Base() + s.bytesRead, got) == s.Landed(mem, at, parts + [got])
    ensures |s.Landed(mem, at, parts + [got])| == |mem|
    ensures |Flatten(parts + [got])| == s.bytesRead + |got| && NonEmpty(parts + [got])
    ensures Start(parts + [got], |parts|) == s.bytesRead
  {
    TurnLands(mem, at, parts, s, got);
    PartsGrow(parts, got);
    StoreKeepsLength(s.mem, s.Base() + s.bytesRead, got);
  }

  lemma PartsGrow(parts: seq<seq<byte>>, got: seq<byte>)
    requires NonEmpty(parts) && got != []
    ensures |Flatten(parts + [got])| == |Flatten(parts)| + |got| && NonEmpty(parts + [got])
    ensures Start(parts + [got], |parts|) == |Flatten(parts)|
  {
    FlattenSnoc(parts, got);
    assert (parts + [got])[..|parts|] == parts;
  }

  lemma TrailMore(mem: seq<byte>, at: nat, parts: seq<seq<byte>>, s: Snap, t: Snap, got: seq<byte>)
    requires Trail(mem, at, parts, s) && Turned(s, t, true, got) && |got| < s.Need()
    ensures Trail(mem, at, parts + [got], t)
    ensures t == s.(rx := s.rx[|got|..], bytesRead := t.bytesRead, fill := t.fill, mem := t.mem)
    ensures !s.advancing ==> t.fill == s.fill
  {
    TrailWrites(mem, at, parts, s, got);
  }

  lemma TrailDone(mem: seq<byte>, at: nat, parts: seq<seq<byte>>, s: Snap, t: Snap, got: seq<byte>)
    requires Trail(mem, at, parts, s) && Turned(s, t, true, got) && |got| == s.Need()
    ensures t == Completed(s, mem, at, parts + [got], s.rx[|got|..])
  {
    TrailWrites(mem, at, parts, s, got);
    var landed := s.Landed(mem, at, parts + [got]);
    assert Filled(s, got) == s.(rx := s.rx[|got|..], mem := landed);
  }

  /** One turn of the loop while the frame is incomplete. */
  lemma TrailTurn(mem: seq<byte>, at: nat, parts: seq<seq<byte>>, s: Snap, t: Snap, got: seq<byte>)
    requires Trail(mem, at, parts, s) && Turned(s, t, true, got)
    ensures |got| < s.Need() ==>
              && Trail(mem, at, parts + [got], t)
              && t == s.(rx := s.rx[|got|..], bytesRead := t.bytesRead, fill := t.fill, mem := t.mem)
              && (!s.advancing ==> t.fill == s.fill)
    ensures |got| == s.Need() ==> t == Completed(s, mem, at, parts + [got], s.rx[|got|..])
  {
    if |got| < s.Need() {
      TrailMore(mem, at, parts, s, t, got);
    } else {
      TrailDone(mem, at, parts, s, t, got);
    }
  }

  /** Part of the payload has been read since `o`, as `more`. */
  ghost predicate Incomplete(o: Snap, s: Snap, mem: seq<byte>, at: nat, before: seq<seq<byte>>, more: seq<seq<byte>>) {
    && Trail(mem, at, before + more, s)
    && s == o.(rx := s.rx, bytesRead := s.bytesRead, fill := s.fill, mem := s.mem)
    && (!s.advancing ==> s.fill == o.fill)
    && o.rx == Flatten(more) + s.rx && |Flatten(before)| == o.bytesRead
    && (o.greedy && |o.rx| >= o.Need() ==> more == [])
  }

  lemma ReadMore(rx: seq<byte>, more: seq<seq<byte>>, left: seq<byte>, got: seq<byte>)
    requires rx == Flatten(more) + left && got <= left
    ensures rx == Flatten(more + [got]) + left[|got|..]
  {
    FlattenSnoc(more, got);
    assert left == got + left[|got|..];
    assert Flatten(more) + (got + left[|got|..]) == (Flatten(more) + got) + left[|got|..];
  }

  lemma IncompleteTurn(o: Snap, s: Snap, t: Snap, mem: seq<byte>, at: nat, before: seq<seq<byte>>,
                       more: seq<seq<byte>>, got: seq<byte>)
    requires Incomplete(o, s, mem, at, before, more) && Turned(s, t, true, got)
    ensures |got| < s.Need() ==> Incomplete(o, t, mem, at, before, more + [got])
    ensures |got| == s.Need() ==>
              t == Completed(o, mem, at, before + (more + [got]), s.rx[|got|..])
    ensures o.rx == Flatten(more + [got]) + s.rx[|got|..]
  {
    TrailTurn(mem, at, before + more, s, t, got);
    assert (before + more) + [got] == before + (more + [got]);
    ReadMore(o.rx, more, s.rx, got);
    if |got| == s.Need() {
      SameCompletion(o, s, mem, at, before + (more + [got]), s.rx[|got|..]);
    }
  }

  /** Completion does not depend on how far the frame had come. */
  lemma SameCompletion(o: Snap, s: Snap, mem: seq<byte>, at: nat, parts: seq<seq<byte>>, rx: seq<byte>)
    requires parts != [] && s == o.(rx := s.rx, bytesRead := s.bytesRead, fill := s.fill, mem := s.mem)
    requires !s.advancing ==> s.fill == o.fill
    ensures Completed(s, mem, at, parts, rx) == Completed(o, mem, at, parts, rx)
  {
  }

  // ---------------------------------------------------------------- what follows the frame

  /** A byte sequence cut into frames that all carry header `h`. */
  datatype Cutting = Cutting(frames: seq<Frame>, rest: seq<byte>)

  function CutUp(h: Header, s: seq<byte>): Cutting
    requires h.length > 0
    decreases |s|
  {
    if |s| < h.length then Cutting([], s)
    else
      var later := CutUp(h, s[h.length..]);
      Cutting([Frame(h, s[..h.length])] + later.frames, later.rest)
  }

  lemma {:induction false} CutGrows(h: Header, s: seq<byte>, got: seq<byte>)
    requires h.length > 0 && |CutUp(h, s).rest| + |got| <= h.length
    ensures var c := CutUp(h, s);
            CutUp(h, s + got) ==
            if |c.rest| + |got| < h.length then Cutting(c.frames, c.rest + got)
            else Cutting(c.frames + [Frame(h, c.rest + got)], [])
    decreases |s|
  {
    if |s| >= h.length {
      assert (s + got)[h.length..] == s[h.length..] + got && (s + got)[..h.length] == s[..h.length];
      CutGrows(h, s[h.length..], got);
    } else if |s| + |got| == h.length {
      assert (s + got)[..h.length] == s + got && (s + got)[h.length..] == [];
      assert CutUp(h, []) == Cutting([], []);
    }
  }

  lemma {:induction false} CutShort(h: Header, s: seq<byte>)
    requires h.length > 0
    ensures |CutUp(h, s).rest| < h.length
    decreases |s|
  {
    if |s| >= h.length {
      CutShort(h, s[h.length..]);
    }
  }

  /** After the frame, the loop goes on with the frame's header: since `o` it has taken
      `eaten` from the FIFO and judged every piece of the frame's length as a frame of
      its own. */
  ghost predicate Devoured(o: Snap, s: Snap, eaten: seq<byte>)
    requires o.hdr.length > 0
  {
    var c := CutUp(o.hdr, eaten);
    var r := ReactAll(o.dev, c.frames);
    && s.Reading() && |s.mem| == |o.mem| && s.mem[s.capacity..] == o.mem[s.capacity..]
    && s == o.(dev := r.dev, sent := o.sent + r.replies, rx := s.rx, bytesRead := |c.rest|, mem := s.mem)
    && s.mem[..s.bytesRead] == c.rest && o.rx == eaten + s.rx
  }

  /** The bytes of the piece in progress after one more read. */
  lemma PieceGrows(s: Snap, t: Snap, got: seq<byte>)
    requires s.Reading() && !s.advancing && s.hdr.length <= s.capacity && Turned(s, t, true, got)
    ensures var piece := s.mem[..s.bytesRead] + got;
            && |t.mem| == |s.mem| && t.mem[s.capacity..] == s.mem[s.capacity..]
            && t.rx == s.rx[|got|..]
            && (|got| < s.Need() ==>
                  t == s.(rx := t.rx, bytesRead := |piece|, mem := t.mem) && t.mem[..t.bytesRead] == piece)
            && (|got| == s.Need() ==>
                  var r := React(s.dev, Frame(s.hdr, piece));
                  t == s.(state := Type, partial := [], dev := r.dev, sent := s.sent + r.replies, rx := t.rx,
                          bytesRead := 0, mem := t.mem))
  {
    StoreAt(s.mem, s.bytesRead, got);
    var m := Store(s.mem, s.bytesRead, got);
    assert m[..s.bytesRead + |got|] == s.mem[..s.bytesRead] + got;
  }

  lemma EatenGrows(rx: seq<byte>, eaten: seq<byte>, left: seq<byte>, got: seq<byte>)
    requires rx == eaten + left && got <= left
    ensures rx == (eaten + got) + left[|got|..]
  {
  }

  lemma DevouredTurn(o: Snap, s: Snap, t: Snap, eaten: seq<byte>, got: seq<byte>)
    requires o.hdr.length > 0 && Devoured(o, s, eaten) && Turned(s, t, true, got)
    requires !o.advancing && o.hdr.length <= o.capacity && o.state == Type && o.partial == []
    ensures Devoured(o, t, eaten + got)
  {
    var c := CutUp(o.hdr, eaten);
    PieceGrows(s, t, got);
    CutGrows(o.hdr, eaten, got);
    EatenGrows(o.rx, eaten, s.rx, got);
    if |got| == s.Need() {
      var f := Frame(o.hdr, c.rest + got);
      ReactSnoc(o.dev, c.frames, f);
      var before, now := ReactAll(o.dev, c.frames), React(s.dev, f);
      assert (o.sent + before.replies) + now.replies == o.sent + (before.replies + now.replies);
    }
  }

  // ---------------------------------------------------------------- laps of an advancing client

  /** An advancing client's loop goes on as well, but where a piece lands depends on the fill
      count the one before has left. `laps` says how each whole piece since `d` was read. */
  function AfterLaps(d: Snap, laps: seq<seq<seq<byte>>>): Snap {
    if laps == [] then d
    else
      var b, p := AfterLaps(d, laps[..|laps| - 1]), laps[|laps| - 1];
      if p == [] then b
      else Completed(b, b.mem, b.Base(), p, if |Flatten(p)| <= |b.rx| then b.rx[|Flatten(p)|..] else [])
  }

  /** Each lap takes the next bytes of the FIFO, as many as the header says. */
  ghost predicate LapsFit(d: Snap, laps: seq<seq<seq<byte>>>) {
    laps == [] ||
    (var b, p := AfterLaps(d, laps[..|laps| - 1]), laps[|laps| - 1];
     && LapsFit(d, laps[..|laps| - 1]) && b.CanAcquire() && b.bytesRead == 0 && |b.mem| == |d.mem|
     && NonEmpty(p) && p != [] && |Flatten(p)| == d.hdr.length && Flatten(p) <= b.rx
     && (d.greedy ==> |p| == 1))
  }

  /** Since `d` the loop has done `laps` and read `part` of the next piece; it ends when the
      FIFO is empty, or when the client has no room for another piece. */
  ghost predicate Lapped(d: Snap, s: Snap, again: bool, laps: seq<seq<seq<byte>>>, part: seq<seq<byte>>) {
    var b := AfterLaps(d, laps);
    && LapsFit(d, laps) && b.Reading() && b.bytesRead == 0
    && b.hdr == d.hdr && b.capacity == d.capacity && b.advancing == d.advancing && b.greedy == d.greedy
    && |b.mem| == |d.mem|
    && if b.CanAcquire() then Incomplete(b, s, b.mem, b.Base(), [], part) && (!again ==> s.rx == [])
       else part == [] && s == if again then b else OutOfBuffers(b)
  }

  lemma LapStarts(b: Snap)
    requires b.Reading() && b.bytesRead == 0 && b.CanAcquire()
    ensures Incomplete(b, b, b.mem, b.Base(), [], [])
  {
    TrailStarts(b);
    var none: seq<seq<byte>> := [];
    assert none + none == none && Flatten(none) + b.rx == b.rx;
  }

  lemma LappedStarts(d: Snap)
    requires d.Reading() && d.bytesRead == 0
    ensures Lapped(d, d, true, [], [])
  {
    if d.CanAcquire() {
      LapStarts(d);
    }
  }

  /** The turn that completes a lap. */
  lemma LapDone(d: Snap, s: Snap, t: Snap, laps: seq<seq<seq<byte>>>, part: seq<seq<byte>>, got: seq<byte>)
    requires Lapped(d, s, true, laps, part) && Turned(s, t, true, got) && |got| == s.Need() && t.Reading()
    ensures Lapped(d, t, true, laps + [part + [got]], [])
  {
    var b, p := AfterLaps(d, laps), part + [got];
    var none: seq<seq<byte>> := [];
    assert none + p == p && none + part == part;
    IncompleteTurn(b, s, t, b.mem, b.Base(), [], part, got);
    FlattenSnoc(part, got);
    assert b.rx[|Flatten(p)|..] == s.rx[|got|..];
    assert (laps + [p])[..|laps|] == laps;
    assert AfterLaps(d, laps + [p]) == t;
    if t.CanAcquire() {
      LapStarts(t);
    }
  }

  lemma LappedTurn(d: Snap, s: Snap, t: Snap, again: bool, laps: seq<seq<seq<byte>>>, part: seq<seq<byte>>,
                   got: seq<byte>)
    requires Lapped(d, s, true, laps, part) && s.Reading() && Turned(s, t, again, got) && t.Reading()
    ensures got != [] && |got| == s.Need() ==> Lapped(d, t, again, laps + [part + [got]], [])
    ensures got != [] && |got| < s.Need() ==> Lapped(d, t, again, laps, part + [got])
    ensures got == [] ==> Lapped(d, t, again, laps, part)
  {
    var b := AfterLaps(d, laps);
    if got != [] {
      if |got| == s.Need() {
        LapDone(d, s, t, laps, part, got);
      } else {
        IncompleteTurn(b, s, t, b.mem, b.Base(), [], part, got);
      }
    }
  }

  /** With nothing behind the frame the loop asks for the buffer once more and ends. */
  lemma LappedNothing(d: Snap, s: Snap, laps: seq<seq<seq<byte>>>, part: seq<seq<byte>>)
    requires Lapped(d, s, false, laps, part) && d.rx == []
    ensures s == if d.CanAcquire() then d else OutOfBuffers(d)
  {
    LapsTake(d, laps);
    if d.CanAcquire() {
      assert Flatten(part) + s.rx == [];
      NothingRead(part);
      var none: seq<seq<byte>> := [];
      assert none + part == part;
    }
  }

  lemma NothingRead(parts: seq<seq<byte>>)
    requires NonEmpty(parts) && Flatten(parts) == []
    ensures parts == []
  {
  }

  /** Laps only take what is there. */
  lemma {:induction false} LapsTake(d: Snap, laps: seq<seq<seq<byte>>>)
    requires d.hdr.length > 0 && LapsFit(d, laps)
    ensures |AfterLaps(d, laps).rx| <= |d.rx| && (d.rx == [] ==> laps == [])
  {
    if laps != [] {
      LapsTake(d, laps[..|laps| - 1]);
    }
  }

  // ---------------------------------------------------------------- the whole loop

  /** How far the loop has come: what was read of the frame, the state in which it was
      judged, and what has been taken from the FIFO since, for an advancing client as
      `laps` and `part`. */
  datatype Course = Course(
    more: seq<seq<byte>>, done: Option<Snap>, eaten: seq<byte>, laps: seq<seq<seq<byte>>>, part: seq<seq<byte>>)

  ghost function NextCourse(c: Course, s: Snap, t: Snap, got: seq<byte>): Course {
    if got == [] then c
    else if c.done == None then
      c.(more := c.more + [got], done := if |got| == s.Need() then Some(t) else None)
    else if |got| == s.Need() then
      c.(eaten := c.eaten + got, laps := c.laps + [c.part + [got]], part := [])
    else
      c.(eaten := c.eaten + got, part := c.part + [got])
  }

  /** The frame was read whole as `more`, behind what had been read `before`. */
  ghost predicate ReadWhole(o: Snap, before: seq<seq<byte>>, more: seq<seq<byte>>) {
    && before + more != [] && |Flatten(more)| == o.Need() <= |o.rx| && Flatten(more) == o.rx[..o.Need()]
    && |Flatten(before + more)| == o.hdr.length && NonEmpty(before + more)
    && (o.greedy ==> |more| == 1)
  }

  /** A whole run of the loop from `o`, where the frame in progress was begun as in `Trail`:
      it stays incomplete, or is judged. A fixed-base client's loop then empties the FIFO
      in pieces of the frame's length, an advancing client's in laps. */
  ghost predicate Looped(o: Snap, s: Snap, mem: seq<byte>, at: nat, before: seq<seq<byte>>, c: Course)
    requires o.Reading()
  {
    if |o.rx| < o.Need() then
      Incomplete(o, s, mem, at, before, c.more) && s.rx == []
    else
      && ReadWhole(o, before, c.more)
      && (var done := Completed(o, mem, at, before + c.more, o.rx[o.Need()..]);
          && (!o.advancing ==> Devoured(done, s, done.rx) && s.rx == [])
          && (o.advancing ==> Lapped(done, s, false, c.laps, c.part)))
  }

  /** What every turn keeps, whatever the client. */
  ghost predicate Kept(o: Snap, s: Snap) {
    && s.Reading() && s.hdr == o.hdr && |s.mem| == |o.mem| && s.dev.tx == o.dev.tx
    && ((s.state == o.state && s.partial == o.partial) || (s.state == Type && s.partial == []))
  }

  lemma KeptTurn(o: Snap, s: Snap, t: Snap, again: bool, got: seq<byte>)
    requires Kept(o, s) && Turned(s, t, again, got)
    ensures Kept(o, t)
  {
  }

  /** The frame was judged in state `d`, and the loop has gone on since. */
  ghost predicate GoneOn(o: Snap, s: Snap, again: bool, d: Snap, c: Course)
    requires o.hdr.length > 0 && d.hdr == o.hdr
  {
    && (!o.advancing ==> Devoured(d, s, c.eaten) && (!again ==> s.rx == []))
    && (o.advancing ==> Lapped(d, s, again, c.laps, c.part))
  }

  /** The loop's invariant from entry state `o`. */
  ghost predicate Invariant(o: Snap, s: Snap, again: bool, mem: seq<byte>, at: nat, before: seq<seq<byte>>, c: Course) {
    && Kept(o, s) && o.hdr.length <= o.capacity
    && match c.done
       case None =>
         && Incomplete(o, s, mem, at, before, c.more) && (!again ==> s.rx == [])
         && c.eaten == [] && c.laps == [] && c.part == []
       case Some(d) =>
         && ReadWhole(o, before, c.more)
         && d == Completed(o, mem, at, before + c.more, o.rx[o.Need()..])
         && GoneOn(o, s, again, d, c)
  }

  /** The turn that completes the frame. */
  lemma CompletedTurn(o: Snap, s: Snap, t: Snap, mem: seq<byte>, at: nat, before: seq<seq<byte>>,
                      more: seq<seq<byte>>, got: seq<byte>)
    requires Incomplete(o, s, mem, at, before, more) && Turned(s, t, true, got) && |got| == s.Need()
    ensures ReadWhole(o, before, more + [got])
    ensures t == Completed(o, mem, at, before + (more + [got]), o.rx[o.Need()..])
  {
    IncompleteTurn(o, s, t, mem, at, before, more, got);
    var all := Flatten(more + [got]);
    FlattenAppend(before, more);
    FlattenSnoc(more, got);
    assert |all| == o.Need();
    assert o.rx[..|all|] == all && o.rx[|all|..] == s.rx[|got|..];
    TrailWrites(mem, at, before + more, s, got);
    assert (before + more) + [got] == before + (more + [got]);
  }

  lemma NothingDevoured(s: Snap)
    requires s.Reading() && s.bytesRead == 0
    ensures Devoured(s, s, [])
  {
    assert CutUp(s.hdr, []) == Cutting([], []);
    assert s.sent + [] == s.sent && s.mem[..0] == [] && [] + s.rx == s.rx;
  }

  /** A turn after the frame. */
  lemma DoneTurn(o: Snap, s: Snap, t: Snap, again: bool, got: seq<byte>, d: Snap, c: Course)
    requires s.Reading() && Turned(s, t, again, got) && t.Reading()
    requires o.hdr.length > 0 && d.hdr == o.hdr && d.advancing == o.advancing && c.done.Some?
    requires d.state == Type && d.partial == [] && d.hdr.length <= d.capacity && GoneOn(o, s, true, d, c)
    ensures GoneOn(o, t, again, d, NextCourse(c, s, t, got))
  {
    if o.advancing {
      LappedTurn(d, s, t, again, c.laps, c.part, got);
    } else if again {
      DevouredTurn(d, s, t, c.eaten, got);
    }
  }

  /** One turn of the loop. */
  lemma InvariantTurn(o: Snap, s: Snap, t: Snap, again: bool, got: seq<byte>, mem: seq<byte>, at: nat,
                      before: seq<seq<byte>>, c: Course)
    requires Invariant(o, s, true, mem, at, before, c) && Turned(s, t, again, got)
    ensures Invariant(o, t, again, mem, at, before, NextCourse(c, s, t, got))
  {
    KeptTurn(o, s, t, again, got);
    if c.done.Some? {
      DoneTurn(o, s, t, again, got, c.done.value, c);
    } else if again {
      FrameTurn(o, s, t, got, mem, at, before, c);
    }
  }

  /** A turn that reads part of the frame. */
  lemma FrameTurn(o: Snap, s: Snap, t: Snap, got: seq<byte>, mem: seq<byte>, at: nat, before: seq<seq<byte>>, c: Course)
    requires c == Course(c.more, None, [], [], []) && o.hdr.length <= o.capacity && Kept(o, t)
    requires Incomplete(o, s, mem, at, before, c.more) && Turned(s, t, true, got)
    ensures Invariant(o, t, true, mem, at, before, NextCourse(c, s, t, got))
  {
    if |got| < s.Need() {
      IncompleteTurn(o, s, t, mem, at, before, c.more, got);
    } else {
      CompletedTurn(o, s, t, mem, at, before, c.more, got);
      JustDone(o, t, NextCourse(c, s, t, got));
    }
  }

  lemma JustDone(o: Snap, t: Snap, c: Course)
    requires t.Reading() && t.bytesRead == 0 && t.hdr == o.hdr && c.eaten == [] && c.laps == [] && c.part == []
    ensures GoneOn(o, t, true, t, c)
  {
    NothingDevoured(t);
    LappedStarts(t);
  }

  lemma InvariantEnds(o: Snap, s: Snap, mem: seq<byte>, at: nat, before: seq<seq<byte>>, c: Course)
    requires o.Reading() && Invariant(o, s, false, mem, at, before, c)
    ensures Looped(o, s, mem, at, before, c)
  {
    if c.done == None {
      FlattenAppend(before, c.more);
      assert o.rx == Flatten(c.more);
    } else if !o.advancing {
      assert c.eaten + [] == c.eaten;
    }
  }

  /** The loop runs from entry state `o`; without room for the frame it ends at once. */
  ghost predicate Running(o: Snap, s: Snap, again: bool, mem: seq<byte>, at: nat, before: seq<seq<byte>>, c: Course) {
    && s.Reading()
    && (o.CanAcquire() ==> Invariant(o, s, again, mem, at, before, c))
    && (!o.CanAcquire() ==> s == if again then o else OutOfBuffers(o))
  }

  ghost function FreshCourse(): Course {
    Course([], None, [], [], [])
  }

  lemma RunningStarts(o: Snap, mem: seq<byte>, at: nat, before: seq<seq<byte>>)
    requires o.Reading() && (o.CanAcquire() ==> Trail(mem, at, before, o))
    ensures Running(o, o, true, mem, at, before, FreshCourse())
  {
    assert before + [] == before && Flatten([]) + o.rx == o.rx;
  }

  lemma RunningTurn(o: Snap, s: Snap, t: Snap, again: bool, got: seq<byte>, mem: seq<byte>, at: nat,
                    before: seq<seq<byte>>, c: Course)
    requires Running(o, s, true, mem, at, before, c) && Turned(s, t, again, got)
    ensures Running(o, t, again, mem, at, before, NextCourse(c, s, t, got))
  {
    if o.CanAcquire() {
      InvariantTurn(o, s, t, again, got, mem, at, before, c);
    }
  }

  /** What the whole loop does. */
  ghost predicate Handled(o: Snap, s: Snap, mem: seq<byte>, at: nat, before: seq<seq<byte>>, c: Course)
    requires o.Reading()
  {
    && Kept(o, s)
    && if o.CanAcquire() then Looped(o, s, mem, at, before, c) else s == OutOfBuffers(o)
  }

  lemma RunningEnds(o: Snap, s: Snap, mem: seq<byte>, at: nat, before: seq<seq<byte>>, c: Course)
    requires o.Reading() && Running(o, s, false, mem, at, before, c)
    ensures Handled(o, s, mem, at, before, c)
  {
    if o.CanAcquire() {
      InvariantEnds(o, s, mem, at, before, c);
    }
  }

  // ---------------------------------------------------------------- advancing clients

  /** The frame has been read as `parts` by an advancing client that started at `at`. */
  ghost predicate ReadAs(o: Snap, mem: seq<byte>, at: nat, parts: seq<seq<byte>>) {
    && o.Reading() && o.advancing && |mem| == |o.mem| && at + o.hdr.length <= o.capacity
    && NonEmpty(parts) && parts != [] && |Flatten(parts)| == o.hdr.length
  }

  lemma LastWrite(parts: seq<seq<byte>>)
    requires parts != []
    ensures Start(parts, |parts| - 1) + |parts[|parts| - 1]| == |Flatten(parts)|
  {
    StartNext(parts, |parts| - 1);
    StartGrows(parts, |parts|, |parts|);
  }

  /** Every write stays inside the client's buffer if and only if the place of the last
      part in the payload, the payload's length and the client's start together do. When
      they do not, the last byte of the payload lands outside. */
  lemma InsideIff(o: Snap, mem: seq<byte>, at: nat, parts: seq<seq<byte>>)
    requires ReadAs(o, mem, at, parts)
    ensures var end := at + Start(parts, |parts| - 1) + o.hdr.length;
            && (Within(at, 2, parts, o.capacity) <==> end <= o.capacity)
            && Within(at, 2, parts, |mem|) && |Land(mem, at, 2, parts)| == |mem|
            && (end > o.capacity ==> Land(mem, at, 2, parts)[end - 1] == Flatten(parts)[o.hdr.length - 1])
            && (end <= o.capacity ==> Land(mem, at, 2, parts)[o.capacity..] == mem[o.capacity..])
  {
    var n := |parts| - 1;
    LastWrite(parts);
    StartGrows(parts, n, n);
    WithinIffLast(at, 2, parts, o.capacity);
    WithinIffLast(at, 2, parts, |mem|);
    LandedElsewhere(mem, at, 2, parts);
    LandedPiece(mem, at, 2, parts, n, |parts[n]| - 1);
    if Within(at, 2, parts, o.capacity) {
      forall i | o.capacity <= i < |mem| ensures !Written(at, 2, parts, i) {
      }
    }
  }

  /** The message the client is told about: the payload, whatever the buffer held before,
      if and only if the client started at the beginning of its buffer and the frame
      came in one read. Otherwise it holds a byte that is left over from before: the
      first one, or the one behind the first part. */
  lemma MessageIntactIff(o: Snap, mem: seq<byte>, at: nat, parts: seq<seq<byte>>)
    requires ReadAs(o, mem, at, parts)
    ensures Intact(at, parts, |mem|) <==> at == 0 && |parts| == 1
    ensures at > 0 || |parts| > 1 ==>
              var i := if at > 0 then 0 else |parts[0]|;
              i < o.hdr.length && |Land(mem, at, 2, parts)| == |mem| && Land(mem, at, 2, parts)[i] == mem[i]
  {
    InsideIff(o, mem, at, parts);
    IntactIffOneRead(at, parts, |mem|);
    LandedElsewhere(mem, at, 2, parts);
    if at > 0 || |parts| > 1 {
      var i := StaleIndex(at, parts, |mem|);
    }
  }

  /** What the handler leaves when nothing follows the frame. An accepted frame is handed
      on as it landed, and the client starts over. A refused one leaves the client where
      the last part began, and when a write went outside the buffer there is an
      OUT_OF_BUFFERS acknowledgement on top. */
  lemma AdvancingOutcome(o: Snap, s: Snap, mem: seq<byte>, at: nat, before: seq<seq<byte>>, c: Course)
    requires o.advancing && o.Reading() && |mem| == |o.mem| && at + o.hdr.length <= o.capacity
    requires Looped(o, s, mem, at, before, c) && |o.rx| == o.Need()
    ensures var parts := before + c.more;
            var landed := Land(mem, at, 2, parts);
            && ReadAs(o, mem, at, parts) && |landed| == |mem| && s.mem == landed && s.rx == [] && s.state == Type
            && (o.hdr.number == o.dev.rx ==>
                  && s.dev.accepted == o.dev.accepted + [Frame(o.hdr, landed[..o.hdr.length])]
                  && s.fill == 0 && |s.sent| <= |o.sent| + 1)
            && (o.hdr.number != o.dev.rx ==>
                  && s.dev.accepted == o.dev.accepted && s.fill == at + Start(parts, |parts| - 1)
                  && (|s.sent| == |o.sent| + 2 <==> !Within(at, 2, parts, o.capacity))
                  && |s.sent| <= |o.sent| + 2)
  {
    var parts := before + c.more;
    assert ReadAs(o, mem, at, parts);
    assert o.rx[o.Need()..] == [];
    var done := Completed(o, mem, at, parts, []);
    LappedNothing(done, s, c.laps, c.part);
    AdvancingVerdict(o, mem, at, parts);
    InsideIff(o, mem, at, parts);
  }

  /** The state in which a frame read as `parts` leaves the device and the client. */
  lemma AdvancingVerdict(o: Snap, mem: seq<byte>, at: nat, parts: seq<seq<byte>>)
    requires ReadAs(o, mem, at, parts)
    ensures var done, landed := Completed(o, mem, at, parts, []), Land(mem, at, 2, parts);
            && |landed| == |mem| && done.mem == landed && done.rx == [] && done.state == Type
            && (o.hdr.number == o.dev.rx ==>
                  && done.dev.accepted == o.dev.accepted + [Frame(o.hdr, landed[..o.hdr.length])]
                  && done.fill == 0 && |done.sent| <= |o.sent| + 1 && done.CanAcquire())
            && (o.hdr.number != o.dev.rx ==>
                  && done.dev.accepted == o.dev.accepted && |done.sent| == |o.sent| + 1
                  && done.fill == at + Start(parts, |parts| - 1)
                  && (done.CanAcquire() <==> at + Start(parts, |parts| - 1) + o.hdr.length <= o.capacity))
  {
    InsideIff(o, mem, at, parts);
  }

  /** Two reads of two bytes: the second lands outside a buffer of four, and the client is
      told of a message whose second half it held before. */
  lemma TwoReadsOverrun(a: byte, b: byte, c: byte, d: byte, mem: seq<byte>)
    requires |mem| == 4 + MAX_PAYLOAD_LEN
    ensures var landed := Land(mem, 0, 2, [[a, b], [c, d]]);
            && |landed| == |mem| && landed[..4] == [a, b, mem[2], mem[3]]
            && landed[4] == c && landed[5] == d
  {
    var parts := [[a, b], [c, d]];
    assert parts[..1] == [[a, b]] && [[a, b]][..0] == [];
    assert Flatten([[a, b]]) == [a, b];
    assert Land(mem, 0, 2, [[a, b]]) == [a, b] + mem[2..];
    assert Place(0, 2, parts, 1) == 4;
    StoreAt([a, b] + mem[2..], 4, [c, d]);
  }

  // ---------------------------------------------------------------- what follows the frame

  /** How many pieces of `size` bytes fit into `total`. */
  function Pieces(total: nat, size: nat): nat {
    if size == 0 || total < size then 0 else 1 + Pieces(total - size, size)
  }

  lemma {:induction false} PiecesFit(total: nat, size: nat)
    requires size > 0
    ensures Pieces(total, size) * size <= total < (Pieces(total, size) + 1) * size
    decreases total
  {
    if total >= size {
      PiecesFit(total - size, size);
    }
  }

  lemma {:induction false} CutCount(h: Header, s: seq<byte>)
    requires h.length > 0
    ensures |CutUp(h, s).frames| == Pieces(|s|, h.length)
    ensures forall f :: f in CutUp(h, s).frames ==> f.hdr == h
    decreases |s|
  {
    if |s| >= h.length {
      CutCount(h, s[h.length..]);
    }
  }

  /** Pieces that are all judged by the header of a frame just accepted. The first is
      refused in the name of the next number and sets the counter back to 0. If the
      header carries 0, every second piece is then accepted as a message nobody sent. */
  lemma {:induction false} FalseVerdicts(d: Device, h: Header, frames: seq<Frame>)
    requires forall f :: f in frames ==> f.hdr == h
    requires !d.stuck && h.typ in d.wired && h.typ != TYPE_PROTOCOL_INFO && h.length > 0 && d.rx == Next(h.number)
    ensures var r, k := ReactAll(d, frames), |frames|;
            && !r.dev.stuck && r.dev.wired == d.wired
            && |r.dev.accepted| == |d.accepted| + (if h.number == 0 then k / 2 else 0)
            && r.dev.rx == (if k == 0 then Next(h.number) else if h.number == 0 && k % 2 == 0 then 1 else 0)
            && (k > 0 ==>
                  && |r.replies| > 0
                  && r.replies[0] == Ack(h.typ, Next(h.number), INCORRECT_SEQUENCE_NUMBER, true))
  {
    if frames != [] {
      var n := |frames| - 1;
      assert frames[n] in frames && forall f :: f in frames[..n] ==> f in frames;
      FalseVerdicts(d, h, frames[..n]);
    }
  }

  lemma Halves(n: nat)
    ensures if n % 2 == 0 then (n + 1) / 2 == n / 2 && (n + 2) / 2 == n / 2 + 1
            else (n + 1) / 2 == n / 2 + 1 && (n + 2) / 2 == (n + 1) / 2
    ensures (n + 1) % 2 == 1 - n % 2
  {
  }

  /** The same after a frame just refused, when the device expects 0. */
  lemma {:induction false} FalseVerdictsAfterRefusal(d: Device, h: Header, frames: seq<Frame>)
    requires forall f :: f in frames ==> f.hdr == h
    requires !d.stuck && h.typ in d.wired && h.typ != TYPE_PROTOCOL_INFO && h.length > 0 && d.rx == 0
    ensures var r, k := ReactAll(d, frames), |frames|;
            && !r.dev.stuck && r.dev.wired == d.wired
            && |r.dev.accepted| == |d.accepted| + (if h.number == 0 then (k + 1) / 2 else 0)
            && r.dev.rx == (if h.number == 0 && k % 2 == 1 then 1 else 0)
  {
    if frames != [] {
      var n := |frames| - 1;
      assert frames[n] in frames && forall f :: f in frames[..n] ==> f in frames;
      FalseVerdictsAfterRefusal(d, h, frames[..n]);
      assert frames == frames[..n] + [frames[n]];
      ReactSnoc(d, frames[..n], frames[n]);
      Halves(n);
    }
  }

  /** What an advancing client's laps amount to when every read returns all it can and the
      client starts at the beginning of its buffer: the pieces are judged as they are. */
  ghost predicate JudgedPlainly(d: Snap, b: Snap, e: seq<byte>)
    requires d.hdr.length > 0
  {
    var c := CutUp(d.hdr, e);
    var r := ReactAll(d.dev, c.frames);
    && d.rx == e + b.rx && c.rest == [] && b.fill == 0 && b.bytesRead == 0 && |b.mem| == |d.mem|
    && b.dev == r.dev && b.sent == d.sent + r.replies
    && b.hdr == d.hdr && b.advancing && b.greedy && b.capacity == d.capacity
  }

  lemma OneLap(b: Snap, x: seq<byte>)
    requires b.advancing && b.fill == 0 && |b.mem| >= |x| == b.hdr.length > 0 && x <= b.rx
    ensures var t := Completed(b, b.mem, b.Base(), [x], b.rx[|x|..]);
            var r := React(b.dev, Frame(b.hdr, x));
            && t.fill == 0 && t.dev == r.dev && t.sent == b.sent + r.replies && t.bytesRead == 0
            && |t.mem| == |b.mem| && t.rx == b.rx[|x|..]
            && t.hdr == b.hdr && t.advancing && t.greedy == b.greedy && t.capacity == b.capacity
  {
    OneReadLands(b.mem, x);
    assert Land(b.mem, 0, 2, [x])[..|x|] == x;
    assert [x][..0] == [] && Start([x], 0) == 0;
  }

  lemma LapJudged(d: Snap, b: Snap, e: seq<byte>, x: seq<byte>)
    requires d.hdr.length > 0 && JudgedPlainly(d, b, e) && x <= b.rx && |x| == d.hdr.length <= |b.mem|
    ensures JudgedPlainly(d, Completed(b, b.mem, b.Base(), [x], b.rx[|x|..]), e + x)
  {
    var c := CutUp(d.hdr, e);
    OneLap(b, x);
    CutGrows(d.hdr, e, x);
    EatenGrows(d.rx, e, b.rx, x);
    assert [] + x == x;
    ReactSnoc(d.dev, c.frames, Frame(d.hdr, x));
    var before, now := ReactAll(d.dev, c.frames), React(b.dev, Frame(d.hdr, x));
    assert (d.sent + before.replies) + now.replies == d.sent + (before.replies + now.replies);
  }

  lemma {:induction false} LapsJudged(d: Snap, laps: seq<seq<seq<byte>>>) returns (e: seq<byte>)
    requires LapsFit(d, laps) && d.Reading() && d.advancing && d.greedy && d.fill == d.bytesRead == 0
    ensures JudgedPlainly(d, AfterLaps(d, laps), e)
    decreases |laps|
  {
    e := [];
    if laps == [] {
      assert CutUp(d.hdr, []) == Cutting([], []) && ReactAll(d.dev, []) == Reaction(d.dev, []);
      assert d.sent + [] == d.sent && [] + d.rx == d.rx;
    } else {
      var p := laps[|laps| - 1];
      e := LapsJudged(d, laps[..|laps| - 1]);
      assert p == [p[0]];
      FlattenOne(p[0]);
      LapJudged(d, AfterLaps(d, laps[..|laps| - 1]), e, p[0]);
      e := e + p[0];
    }
  }

  lemma FlattenOne(x: seq<byte>)
    ensures Flatten([x]) == x
  {
    var one: seq<seq<byte>> := [x];
    assert one[..0] == [];
  }

  /** Everything behind the frame has been taken in pieces of its length and judged by its
      header, and `rest` is left over. */
  ghost predicate AllEaten(d: Snap, s: Snap)
    requires d.hdr.length > 0
  {
    var c := CutUp(d.hdr, d.rx);
    var r := ReactAll(d.dev, c.frames);
    && s.rx == [] && s.dev == r.dev && s.sent == d.sent + r.replies && s.bytesRead == |c.rest|
    && (s.advancing ==> s.fill == |c.rest|)
  }

  /** An advancing client read at once, with frames back to back in the FIFO. */
  lemma LapsEat(d: Snap, s: Snap, laps: seq<seq<seq<byte>>>, part: seq<seq<byte>>)
    requires Lapped(d, s, false, laps, part) && d.Reading() && d.advancing && d.greedy && d.fill == d.bytesRead == 0
    requires d.hdr.length <= d.capacity
    ensures AllEaten(d, s)
  {
    var b := AfterLaps(d, laps);
    var e := LapsJudged(d, laps);
    var none: seq<seq<byte>> := [];
    assert none + part == part;
    assert b.rx == Flatten(part) + [] == Flatten(part);
    CutGrows(d.hdr, e, b.rx);
    assert [] + b.rx == b.rx;
  }

  /** The frame is read straight: from a fixed base, or by an advancing client from the
      beginning of its buffer and all at once. */
  ghost predicate ReadStraight(o: Snap, at: nat, before: seq<seq<byte>>) {
    o.advancing ==> at == 0 && before == [] && o.bytesRead == 0 && o.greedy
  }

  lemma EatenStraight(o: Snap, s: Snap, mem: seq<byte>, at: nat, before: seq<seq<byte>>, c: Course, done: Snap)
    requires o.Reading() && |o.rx| >= o.Need() && Looped(o, s, mem, at, before, c) && ReadStraight(o, at, before)
    requires |mem| == |o.mem| && at + o.hdr.length <= o.capacity
    requires done == Completed(o, mem, at, before + c.more, o.rx[o.Need()..])
    ensures AllEaten(done, s)
  {
    if o.advancing {
      var parts := before + c.more;
      assert parts == c.more && |parts| == 1;
      assert Start(parts, 0) == 0;
      LapsEat(done, s, c.laps, c.part);
    }
  }

  /** What `k` eaten pieces behind a frame numbered `n` have made of the device. */
  ghost predicate EatenCounts(o: Snap, s: Snap, k: nat, n: nibble) {
    if o.dev.rx == n then
      && |s.dev.accepted| == |o.dev.accepted| + 1 + (if n == 0 then k / 2 else 0)
      && (k > 0 ==>
            && s.dev.rx == (if n == 0 && k % 2 == 0 then 1 else 0)
            && Ack(o.hdr.typ, Next(n), INCORRECT_SEQUENCE_NUMBER, true) in s.sent)
    else
      && |s.dev.accepted| == |o.dev.accepted| + (if n == 0 then (k + 1) / 2 else 0)
      && s.dev.rx == (if n == 0 && k % 2 == 1 then 1 else 0)
  }

  /** The frame's own verdict has made device `d` of the one in `o`. */
  ghost predicate Verdict(o: Snap, d: Device) {
    && !d.stuck && d.wired == o.dev.wired
    && (if o.dev.rx == o.hdr.number
        then |d.accepted| == |o.dev.accepted| + 1 && d.rx == Next(o.hdr.number)
        else d.accepted == o.dev.accepted && d.rx == 0)
  }

  /** The handler of a frame read straight keeps the stream aligned if and only if nothing
      followed the frame in the FIFO: it eats what follows, in pieces of the frame's length
      judged by the frame's header. How many of these become messages nobody sent and
      what the device expects afterwards depends on the frame's own verdict and number;
      behind an accepted frame the first piece is refused in the name of the next
      number. An advancing client is left with the fill count of the last, partial
      piece, so that the next frame will not be read straight unless there is none. */
  lemma WhatFollowsIsEaten(o: Snap, s: Snap, mem: seq<byte>, at: nat, before: seq<seq<byte>>, c: Course)
    requires o.Reading() && |o.rx| >= o.Need() && Looped(o, s, mem, at, before, c) && ReadStraight(o, at, before)
    requires |mem| == |o.mem| && at + o.hdr.length <= o.capacity
    ensures s.rx == o.rx[o.Need()..] <==> |o.rx| == o.Need()
    ensures EatenCounts(o, s, Pieces(|o.rx| - o.Need(), o.hdr.length), o.hdr.number)
    ensures o.advancing ==> s.fill == |CutUp(o.hdr, o.rx[o.Need()..]).rest|
  {
    var done := Completed(o, mem, at, before + c.more, o.rx[o.Need()..]);
    EatenStraight(o, s, mem, at, before, c, done);
    OwnVerdict(o, mem, at, before + c.more, done.rx);
    EatenBehind(o, s, done, o.rx[o.Need()..]);
  }

  /** What has been eaten behind frame `o`, judged in state `done`. */
  lemma EatenBehind(o: Snap, s: Snap, done: Snap, rx: seq<byte>)
    requires o.Reading() && o.Need() <= |o.rx| && rx == o.rx[o.Need()..]
    requires done.hdr == o.hdr && done.rx == rx && AllEaten(done, s) && Verdict(o, done.dev)
    ensures s.rx == rx <==> |o.rx| == o.Need()
    ensures EatenCounts(o, s, Pieces(|o.rx| - o.Need(), o.hdr.length), o.hdr.number)
    ensures s.advancing ==> s.fill == |CutUp(o.hdr, rx).rest|
  {
    EatenVerdicts(done, s, o.dev.rx == o.hdr.number);
  }

  /** The verdicts on what follows a frame that was accepted or refused. */
  lemma EatenVerdicts(d: Snap, s: Snap, accepted: bool)
    requires d.hdr.length > 0 && AllEaten(d, s) && !d.dev.stuck && d.hdr.typ in d.dev.wired
    requires d.hdr.typ != TYPE_PROTOCOL_INFO && d.dev.rx == if accepted then Next(d.hdr.number) else 0
    ensures var k, n := Pieces(|d.rx|, d.hdr.length), d.hdr.number;
            if accepted then
              && |s.dev.accepted| == |d.dev.accepted| + (if n == 0 then k / 2 else 0)
              && (k > 0 ==>
                    && s.dev.rx == (if n == 0 && k % 2 == 0 then 1 else 0)
                    && Ack(d.hdr.typ, Next(n), INCORRECT_SEQUENCE_NUMBER, true) in s.sent)
            else
              && |s.dev.accepted| == |d.dev.accepted| + (if n == 0 then (k + 1) / 2 else 0)
              && s.dev.rx == (if n == 0 && k % 2 == 1 then 1 else 0)
  {
    var frames := CutUp(d.hdr, d.rx).frames;
    CutCount(d.hdr, d.rx);
    if accepted {
      FalseVerdicts(d.dev, d.hdr, frames);
    } else {
      FalseVerdictsAfterRefusal(d.dev, d.hdr, frames);
    }
  }

  lemma OwnVerdict(o: Snap, mem: seq<byte>, at: nat, parts: seq<seq<byte>>, rx: seq<byte>)
    requires o.Reading() && parts != []
    ensures var d := Completed(o, mem, at, parts, rx);
            Verdict(o, d.dev) && d.hdr == o.hdr && d.rx == rx
  {
  }
}
