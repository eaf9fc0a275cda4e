/** Where the pieces of a payload end up in a client's buffer when the handler writes
each at the client's address plus the bytes read so far. With `stride` 1 the client
hands out a fixed address, with `stride` 2 it advances its own as well. */
module Landing {
  import opened Wire

  /** `data` written over `mem` from index `at` on. */
  function Store(mem: seq<byte>, at: nat, data: seq<byte>): seq<byte> {
    if data == [] || at + |data| > |mem| then mem
    else mem[..at] + data + mem[at + |data|..]
  }

  function Flatten(chunks: seq<seq<byte>>): seq<byte> {
    if chunks == [] then [] else Flatten(chunks[..|chunks| - 1]) + chunks[|chunks| - 1]
  }

  /** Where in the payload the `k`-th piece begins. */
  function Start(parts: seq<seq<byte>>, k: nat): nat
    requires k <= |parts|
  {
    |Flatten(parts[..k])|
  }

  /** Where in the buffer the `k`-th piece is written. */
  function Place(at: nat, stride: nat, parts: seq<seq<byte>>, k: nat): nat
    requires k <= |parts|
  {
    at + stride * Start(parts, k)
  }

  function Land(mem: seq<byte>, at: nat, stride: nat, parts: seq<seq<byte>>): seq<byte> {
    if parts == [] then mem
    else
      var n := |parts| - 1;
      Store(Land(mem, at, stride, parts[..n]), Place(at, stride, parts, n), parts[n])
  }

  /** Every piece is written below `limit`. */
  ghost predicate Within(at: nat, stride: nat, parts: seq<seq<byte>>, limit: nat) {
    forall k :: 0 <= k < |parts| ==> Place(at, stride, parts, k) + |parts[k]| <= limit
  }

  lemma StoreAt(mem: seq<byte>, at: nat, data: seq<byte>)
    requires at + |data| <= |mem|
    ensures |Store(mem, at, data)| == |mem|
    ensures forall i :: 0 <= i < |mem| ==>
              Store(mem, at, data)[i] == if at <= i < at + |data| then data[i - at] else mem[i]
  {
  }

  lemma StoreKeepsLength(mem: seq<byte>, at: nat, data: seq<byte>)
    ensures |Store(mem, at, data)| == |mem|
  {
  }

  lemma FlattenSnoc(parts: seq<seq<byte>>, got: seq<byte>)
    ensures Flatten(parts + [got]) == Flatten(parts) + got
  {
    assert (parts + [got])[..|parts|] == parts;
  }

  lemma PlaceInit(at: nat, stride: nat, parts: seq<seq<byte>>, n: nat, k: nat)
    requires k <= n <= |parts|
    ensures Start(parts[..n], k) == Start(parts, k) && Place(at, stride, parts[..n], k) == Place(at, stride, parts, k)
  {
    assert parts[..n][..k] == parts[..k];
  }

  lemma {:induction false} FlattenAppend(a: seq<seq<byte>>, b: seq<seq<byte>>)
    ensures Flatten(a + b) == Flatten(a) + Flatten(b)
  {
    if b == [] {
      assert a + b == a;
    } else {
      var n := |b| - 1;
      assert (a + b)[..|a + b| - 1] == a + b[..n];
      FlattenAppend(a, b[..n]);
    }
  }

  lemma FlattenPart(chunks: seq<seq<byte>>, n: nat)
    requires n < |chunks|
    ensures Flatten(chunks[..n + 1]) == Flatten(chunks[..n]) + chunks[n]
  {
    assert chunks[..n + 1][..n] == chunks[..n];
  }

  lemma FlattenPrefix(chunks: seq<seq<byte>>, n: nat)
    requires n <= |chunks|
    ensures Flatten(chunks) == Flatten(chunks[..n]) + Flatten(chunks[n..])
  {
    assert chunks == chunks[..n] + chunks[n..];
    FlattenAppend(chunks[..n], chunks[n..]);
  }

  lemma FlattenFirst(chunks: seq<seq<byte>>)
    requires chunks != []
    ensures Flatten(chunks) == chunks[0] + Flatten(chunks[1..])
  {
    var first: seq<seq<byte>> := [chunks[0]];
    assert chunks == first + chunks[1..] && first[..0] == [];
    FlattenAppend(first, chunks[1..]);
  }

  lemma LandSnoc(mem: seq<byte>, at: nat, stride: nat, parts: seq<seq<byte>>, got: seq<byte>)
    ensures Land(mem, at, stride, parts + [got]) ==
            Store(Land(mem, at, stride, parts), at + stride * |Flatten(parts)|, got)
  {
    assert (parts + [got])[..|parts|] == parts;
  }

  /** The two strides that occur, without the multiplication: `now` is what has landed, and
      `place` where the next piece goes. */
  lemma LandNextFixed(mem: seq<byte>, at: nat, parts: seq<seq<byte>>, got: seq<byte>, now: seq<byte>, place: nat)
    requires now == Land(mem, at, 1, parts) && place == at + |Flatten(parts)|
    ensures Land(mem, at, 1, parts + [got]) == Store(now, place, got)
  {
    LandSnoc(mem, at, 1, parts, got);
  }

  lemma LandNextAdvancing(mem: seq<byte>, at: nat, parts: seq<seq<byte>>, got: seq<byte>, now: seq<byte>, place: nat)
    requires now == Land(mem, at, 2, parts) && place == at + |Flatten(parts)| + |Flatten(parts)|
    ensures Land(mem, at, 2, parts + [got]) == Store(now, place, got)
  {
    LandSnoc(mem, at, 2, parts, got);
  }

  lemma StartNext(parts: seq<seq<byte>>, k: nat)
    requires k < |parts|
    ensures Start(parts, k + 1) == Start(parts, k) + |parts[k]|
  {
    assert parts[..k + 1][..k] == parts[..k];
  }

  lemma {:induction false} StartGrows(parts: seq<seq<byte>>, j: nat, k: nat)
    requires j <= k <= |parts|
    ensures Start(parts, j) <= Start(parts, k) <= Start(parts, |parts|)
    ensures Start(parts, |parts|) == |Flatten(parts)|
    decreases |parts| - j
  {
    assert parts[..|parts|] == parts;
    if j < k {
      StartNext(parts, j);
      StartGrows(parts, j + 1, k);
    } else if j < |parts| {
      StartNext(parts, j);
      StartGrows(parts, j + 1, j + 1);
    }
  }

  lemma ScaleMono(stride: nat, a: nat, b: nat)
    requires a <= b
    ensures stride * a <= stride * b
  {
  }

  /** Every piece stays below `limit` exactly when the last one does. */
  lemma WithinIffLast(at: nat, stride: nat, parts: seq<seq<byte>>, limit: nat)
    requires parts != [] && stride >= 1
    ensures Within(at, stride, parts, limit) <==>
            Place(at, stride, parts, |parts| - 1) + |parts[|parts| - 1]| <= limit
  {
    var n := |parts| - 1;
    forall k | 0 <= k < n
      ensures Place(at, stride, parts, k) + |parts[k]| <= Place(at, stride, parts, n)
    {
      PiecesApart(at, stride, parts, k, n);
    }
  }

  lemma ScaleStep(stride: nat, a: nat, b: nat)
    requires stride >= 1
    ensures stride * a + b <= stride * (a + b)
  {
    assert stride * (a + b) == stride * a + stride * b;
    ScaleMono(b, 1, stride);
  }

  /** Index `i` is where some piece is written. */
  ghost predicate Written(at: nat, stride: nat, parts: seq<seq<byte>>, i: nat) {
    exists k :: 0 <= k < |parts| && Place(at, stride, parts, k) <= i < Place(at, stride, parts, k) + |parts[k]|
  }

  lemma PiecesApart(at: nat, stride: nat, parts: seq<seq<byte>>, k: nat, n: nat)
    requires stride >= 1 && k < n < |parts|
    ensures Place(at, stride, parts, k) + |parts[k]| <= Place(at, stride, parts, n)
  {
    StartNext(parts, k);
    StartGrows(parts, k + 1, n);
    ScaleStep(stride, Start(parts, k), |parts[k]|);
    ScaleMono(stride, Start(parts, k + 1), Start(parts, n));
  }

  lemma WithinInit(at: nat, stride: nat, parts: seq<seq<byte>>, limit: nat)
    requires parts != [] && Within(at, stride, parts, limit)
    ensures Within(at, stride, parts[..|parts| - 1], limit)
  {
    var n := |parts| - 1;
    forall k | 0 <= k < n ensures Place(at, stride, parts[..n], k) + |parts[..n][k]| <= limit {
      PlaceInit(at, stride, parts, n, k);
    }
  }

  lemma WrittenInit(at: nat, stride: nat, parts: seq<seq<byte>>, i: nat)
    requires parts != []
    ensures Written(at, stride, parts[..|parts| - 1], i) ==> Written(at, stride, parts, i)
  {
    var n := |parts| - 1;
    var init := parts[..n];
    if Written(at, stride, init, i) {
      var k :| 0 <= k < n && Place(at, stride, init, k) <= i < Place(at, stride, init, k) + |init[k]|;
      PlaceInit(at, stride, parts, n, k);
      assert init[k] == parts[k];
    }
  }

  /** What the buffer holds afterwards where nothing was written: what it held before. */
  lemma {:induction false} LandedElsewhere(mem: seq<byte>, at: nat, stride: nat, parts: seq<seq<byte>>)
    requires Within(at, stride, parts, |mem|)
    ensures |Land(mem, at, stride, parts)| == |mem|
    ensures forall i :: 0 <= i < |mem| && !Written(at, stride, parts, i) ==>
              Land(mem, at, stride, parts)[i] == mem[i]
  {
    if parts != [] {
      var n := |parts| - 1;
      var init := parts[..n];
      WithinInit(at, stride, parts, |mem|);
      LandedElsewhere(mem, at, stride, init);
      StoreAt(Land(mem, at, stride, init), Place(at, stride, parts, n), parts[n]);
      forall i | 0 <= i < |mem| && !Written(at, stride, parts, i) ensures Land(mem, at, stride, parts)[i] == mem[i] {
        WrittenInit(at, stride, parts, i);
      }
    }
  }

  /** And each piece is at its place. */
  lemma {:induction false} LandedPiece(mem: seq<byte>, at: nat, stride: nat, parts: seq<seq<byte>>, k: nat, j: nat)
    requires stride >= 1 && Within(at, stride, parts, |mem|) && k < |parts| && j < |parts[k]|
    ensures |Land(mem, at, stride, parts)| == |mem|
    ensures Land(mem, at, stride, parts)[Place(at, stride, parts, k) + j] == parts[k][j]
    decreases |parts|
  {
    LandedElsewhere(mem, at, stride, parts);
    var n := |parts| - 1;
    WithinInit(at, stride, parts, |mem|);
    LandedElsewhere(mem, at, stride, parts[..n]);
    StoreAt(Land(mem, at, stride, parts[..n]), Place(at, stride, parts, n), parts[n]);
    if k < n {
      PlaceInit(at, stride, parts, n, k);
      LandedPiece(mem, at, stride, parts[..n], k, j);
      PiecesApart(at, stride, parts, k, n);
    }
  }

  // ---------------------------------------------------------------- a fixed address

  lemma StoreBehind(before: seq<byte>, mem: seq<byte>, got: seq<byte>)
    requires |before| + |got| <= |mem|
    ensures Store(before + mem[|before|..], |before|, got) == (before + got) + mem[|before| + |got|..]
  {
    var m := before + mem[|before|..];
    assert m[..|before|] == before && m[|before| + |got|..] == mem[|before| + |got|..];
  }

  /** With a fixed address the pieces join up. */
  lemma {:induction false} FixedLands(mem: seq<byte>, parts: seq<seq<byte>>)
    requires |Flatten(parts)| <= |mem|
    ensures Land(mem, 0, 1, parts) == Flatten(parts) + mem[|Flatten(parts)|..]
  {
    if parts == [] {
      assert mem[0..] == mem;
    } else {
      var n := |parts| - 1;
      var before := Flatten(parts[..n]);
      FixedLands(mem, parts[..n]);
      assert Start(parts, n) == |before|;
      StoreBehind(before, mem, parts[n]);
    }
  }

  // ---------------------------------------------------------------- an advancing address

  ghost predicate NonEmpty(parts: seq<seq<byte>>) {
    forall k :: 0 <= k < |parts| ==> parts[k] != []
  }

  /** The message is the payload, whatever the buffer held before. */
  ghost predicate Intact(at: nat, parts: seq<seq<byte>>, size: nat) {
    forall mem: seq<byte> :: |mem| == size ==>
      |Land(mem, at, 2, parts)| >= |Flatten(parts)| && Land(mem, at, 2, parts)[..|Flatten(parts)|] == Flatten(parts)
  }

  /** A client that advances its own address gets the payload intact if and only if it
      started at the beginning of its buffer and the payload came in one read. */
  lemma IntactIffOneRead(at: nat, parts: seq<seq<byte>>, size: nat)
    requires NonEmpty(parts) && parts != [] && Within(at, 2, parts, size)
    ensures Intact(at, parts, size) <==> at == 0 && |parts| == 1
  {
    if at == 0 && |parts| == 1 {
      forall mem: seq<byte> | |mem| == size
        ensures |Land(mem, at, 2, parts)| >= |Flatten(parts)|
        ensures Land(mem, at, 2, parts)[..|Flatten(parts)|] == Flatten(parts)
      {
        OneReadLands(mem, parts[0]);
        assert parts == [parts[0]];
      }
    } else {
      var i := StaleIndex(at, parts, size);
      StaleByteShows(at, parts, size, i);
    }
  }

  lemma StaleByteShows(at: nat, parts: seq<seq<byte>>, size: nat, i: nat)
    requires Within(at, 2, parts, size) && i < |Flatten(parts)| && i < size && !Written(at, 2, parts, i)
    ensures !Intact(at, parts, size)
  {
    var other: byte := if Flatten(parts)[i] == 0 then 1 else 0;
    var mem := seq(size, _ => other);
    LandedElsewhere(mem, at, 2, parts);
    var after := Land(mem, at, 2, parts);
    assert after[i] == mem[i] == other;
    assert |after| >= |Flatten(parts)| ==> after[..|Flatten(parts)|][i] == other;
  }

  lemma OneReadLands(mem: seq<byte>, got: seq<byte>)
    requires |got| <= |mem|
    ensures Land(mem, 0, 2, [got]) == got + mem[|got|..] && Flatten([got]) == got
  {
    assert [got][..0] == [];
    assert Land(mem, 0, 2, []) == mem && Start([got], 0) == 0;
    assert [] + got == got;
  }

  /** A byte of the message that no piece reaches: the first one if the client does not
      start at the beginning of its buffer, else the one behind the first piece. */
  lemma StaleIndex(at: nat, parts: seq<seq<byte>>, size: nat) returns (i: nat)
    requires NonEmpty(parts) && parts != [] && Within(at, 2, parts, size) && (at > 0 || |parts| > 1)
    ensures i < |Flatten(parts)| && i < size && !Written(at, 2, parts, i)
    ensures i == if at > 0 then 0 else |parts[0]|
  {
    assert Start(parts, 0) == 0;
    StartNext(parts, 0);
    StartGrows(parts, 1, |parts|);
    WithinIffLast(at, 2, parts, size);
    StartNext(parts, |parts| - 1);
    if at > 0 {
      i := 0;
    } else {
      i := |parts[0]|;
      StartNext(parts, 1);
      StartGrows(parts, 2, |parts|);
      forall k | 0 <= k < |parts| ensures !(Place(0, 2, parts, k) <= i < Place(0, 2, parts, k) + |parts[k]|) {
        if k > 0 {
          StartGrows(parts, 1, k);
        }
      }
    }
  }
}
