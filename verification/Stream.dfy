/** What a byte stream means, independently of how it is delivered: the simple
parser that the interrupt/work receivers and the Rust reader refine. A header
announcing more than 4096 bytes is answered and skipped without its payload, so
it is an item of its own. */
module Stream {
  import opened Wire

  datatype Item = Whole(frame: Frame) | Oversize(hdr: Header)

  datatype Parsed = Parsed(items: seq<Item>, rest: seq<byte>)

  ghost predicate WfItem(i: Item) {
    match i
    case Whole(f) => WellFormed(f)
    case Oversize(h) => h.length > MAX_PAYLOAD_LEN
  }

  function ItemBytes(i: Item): seq<byte> {
    match i
    case Whole(f) => FrameBytes(f)
    case Oversize(h) => EncodeHeader(h)
  }

  function Concat(items: seq<Item>): seq<byte> {
    if items == [] then [] else ItemBytes(items[0]) + Concat(items[1..])
  }

  /** `s` holds all of its first item. */
  predicate HasItem(s: seq<byte>) {
    |s| >= 4 &&
    var n := DecodeHeader(s[..4]).length;
    n > MAX_PAYLOAD_LEN || |s| >= 4 + n
  }

  function FirstItem(s: seq<byte>): Item
    requires HasItem(s)
  {
    var h := DecodeHeader(s[..4]);
    if h.length > MAX_PAYLOAD_LEN then Oversize(h) else Whole(Frame(h, s[4..4 + h.length]))
  }

  function Parse(s: seq<byte>): Parsed
    decreases |s|
  {
    if !HasItem(s) then Parsed([], s)
    else
      var i := FirstItem(s);
      var p := Parse(s[|ItemBytes(i)|..]);
      Parsed([i] + p.items, p.rest)
  }

  lemma FirstItemBytes(s: seq<byte>)
    requires HasItem(s)
    ensures WfItem(FirstItem(s))
    ensures |ItemBytes(FirstItem(s))| <= |s|
    ensures s == ItemBytes(FirstItem(s)) + s[|ItemBytes(FirstItem(s))|..]
  {
    HeaderRoundTrip(DecodeHeader(s[..4]), s[..4]);
  }

  lemma ItemFirst(i: Item, rest: seq<byte>)
    requires WfItem(i)
    ensures HasItem(ItemBytes(i) + rest)
    ensures FirstItem(ItemBytes(i) + rest) == i
  {
    var h := match i case Whole(f) => f.hdr case Oversize(h) => h;
    var s := ItemBytes(i) + rest;
    HeaderRoundTrip(h, EncodeHeader(h));
    assert s[..4] == EncodeHeader(h);
    if i.Whole? {
      assert s[4..4 + h.length] == i.frame.payload;
    }
  }

  lemma {:induction false} ConcatAppend(a: seq<Item>, b: seq<Item>)
    ensures Concat(a + b) == Concat(a) + Concat(b)
  {
    if a == [] {
      assert a + b == b;
    } else {
      assert (a + b)[1..] == a[1..] + b;
      ConcatAppend(a[1..], b);
    }
  }

  lemma ConcatCons(i: Item, items: seq<Item>, rest: seq<byte>)
    ensures Concat([i] + items) + rest == ItemBytes(i) + (Concat(items) + rest)
  {
    assert ([i] + items)[1..] == items;
  }

  lemma Regroup(a: seq<byte>, b: seq<byte>, c: seq<byte>)
    ensures a + (b + c) == (a + b) + c
  {
  }

  /** Nothing is lost, invented or reordered by parsing. */
  lemma {:induction false} ParseSound(s: seq<byte>, p: Parsed)
    requires p == Parse(s)
    ensures Concat(p.items) + p.rest == s
    ensures forall i :: i in p.items ==> WfItem(i)
    ensures !HasItem(p.rest)
    decreases |s|
  {
    if HasItem(s) {
      FirstItemBytes(s);
      var i := FirstItem(s);
      var tail := s[|ItemBytes(i)|..];
      var q := Parse(tail);
      ParseSound(tail, q);
      ConcatCons(i, q.items, q.rest);
    }
  }

  /** The parse is the only way to cut a stream into items and an unfinished tail. */
  lemma {:induction false} ParseComplete(items: seq<Item>, rest: seq<byte>)
    requires forall i :: i in items ==> WfItem(i)
    requires !HasItem(rest)
    ensures Parse(Concat(items) + rest) == Parsed(items, rest)
  {
    if items == [] {
      assert Concat(items) + rest == rest;
    } else {
      var tail := Concat(items[1..]) + rest;
      assert Concat(items) + rest == ItemBytes(items[0]) + tail;
      ItemFirst(items[0], tail);
      assert (ItemBytes(items[0]) + tail)[|ItemBytes(items[0])|..] == tail;
      ParseComplete(items[1..], rest);
    }
  }

  /** Whole items in front do not disturb the parse of what follows. */
  lemma ParseBehind(items: seq<Item>, rest: seq<byte>)
    requires forall i :: i in items ==> WfItem(i)
    ensures Parse(Concat(items) + rest) == Parsed(items + Parse(rest).items, Parse(rest).rest)
  {
    var q := Parse(rest);
    ParseSound(rest, q);
    ConcatAppend(items, q.items);
    Regroup(Concat(items), Concat(q.items), q.rest);
    ParseComplete(items + q.items, q.rest);
  }

  function Items(frames: seq<Frame>): (items: seq<Item>)
    ensures |items| == |frames|
    ensures forall k :: 0 <= k < |frames| ==> items[k] == Whole(frames[k])
  {
    seq(|frames|, k requires 0 <= k < |frames| => Whole(frames[k]))
  }
}
