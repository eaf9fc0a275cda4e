/** The supported-types mask: computed from the client table, carried in the
PROTOCOL_INFO answer, and read by both hosts. */
module Multiplexer {
  import opened Wire
  import opened Protocol

  /** Which of a type's three callbacks are set. */
  datatype Callbacks = Callbacks(acquire: bool, commit: bool, complete: bool)

  function Pow2(i: nat): nat {
    if i == 0 then 1 else 2 * Pow2(i - 1)
  }

  predicate TestBit(n: nat, i: nat) {
    if i == 0 then n % 2 == 1 else TestBit(n / 2, i - 1)
  }

  /** `n | (1 << i)`. */
  function SetBit(n: nat, i: nat): nat {
    if TestBit(n, i) then n else n + Pow2(i)
  }

  lemma {:induction false} SetBitHalf(n: nat, i: nat)
    requires i > 0
    ensures SetBit(n, i) == 2 * SetBit(n / 2, i - 1) + n % 2
  {
  }

  lemma {:induction false} SetBitTests(n: nat, i: nat, j: nat)
    ensures TestBit(SetBit(n, i), j) <==> i == j || TestBit(n, j)
  {
    if i == 0 {
      if j > 0 {
        assert SetBit(n, 0) / 2 == n / 2;
      }
    } else {
      SetBitHalf(n, i);
      if j > 0 {
        SetBitTests(n / 2, i - 1, j - 1);
        assert SetBit(n, i) / 2 == SetBit(n / 2, i - 1);
      }
    }
  }

  lemma {:induction false} SetBitBound(n: nat, i: nat, k: nat)
    requires n < Pow2(k) && i < k
    ensures SetBit(n, i) < Pow2(k)
  {
    if i == 0 {
      assert n % 2 == 0 ==> n + 1 < Pow2(k);
    } else {
      SetBitHalf(n, i);
      SetBitBound(n / 2, i - 1, k - 1);
    }
  }

  lemma {:induction false} NoBits(j: nat)
    ensures !TestBit(0, j)
  {
    if j > 0 {
      NoBits(j - 1);
    }
  }

  /** `serial_mux_get_callbacks` finds a client exactly for a complete table entry. */
  predicate HasClient(table: seq<Callbacks>, typ: nat)
    requires |table| == TYPE_UNKNOWN
  {
    typ < TYPE_UNKNOWN && table[typ].acquire && table[typ].commit && table[typ].complete
  }

  /** `serial_mux_supported_types_mask`: bit `j` is set for exactly the types with all
      three callbacks and for PROTOCOL_INFO. */
  method SupportedTypesMask(table: seq<Callbacks>) returns (mask: word)
    requires |table| == TYPE_UNKNOWN
    ensures forall j: nat :: TestBit(mask, j) <==>
              || (j < |table| && table[j].acquire && table[j].commit && table[j].complete)
              || j == TYPE_PROTOCOL_INFO
    ensures mask < 512
  {
    mask := 0;
    forall j: nat ensures !TestBit(0, j) {
      NoBits(j);
    }
    assert Pow2(9) == 512;
    for i := 0 to TYPE_UNKNOWN
      invariant mask < Pow2(9)
      invariant forall j: nat :: TestBit(mask, j) <==> j < i && HasClient(table, j)
    {
      if HasClient(table, i) {
        forall j: nat ensures TestBit(SetBit(mask, i), j) <==> i == j || TestBit(mask, j) {
          SetBitTests(mask, i, j);
        }
        SetBitBound(mask, i, 9);
        mask := SetBit(mask, i);
      }
    }
    forall j: nat ensures TestBit(SetBit(mask, 7), j) <==> j == 7 || TestBit(mask, j) {
      SetBitTests(mask, 7, j);
    }
    SetBitBound(mask, 7, 9);
    mask := SetBit(mask, 7);
  }

  /** What a host makes of a PROTOCOL_INFO payload. */
  datatype Info = Info(version: byte, mask: word, next: byte)

  /** `bus_sync`: a wrong version is an error. */
  function HostInfo(p: seq<byte>): Option<Info>
    requires |p| == 4
  {
    var low: int, high: int := p[1], p[2];
    if p[0] != PROTOCOL_VERSION then None else Some(Info(p[0], low + high * 256, p[3]))
  }

  /** `ProtocolInfo::try_from`: type, error and length are checked, the version is not. */
  function RustInfo(f: Frame): Option<Info> {
    if f.hdr.typ != TYPE_PROTOCOL_INFO || f.hdr.error != NO_ERROR || |f.payload| != 4 then None
    else
      var low: int, high: int := f.payload[1], f.payload[2];
      Some(Info(f.payload[0], high * 256 + low, f.payload[3]))
  }

  /** The Rust host takes every well-formed answer, whatever its version. */
  lemma RustTakesAnyVersion(f: Frame)
    requires WellFormed(f)
    ensures RustInfo(f).Some? <==> IsInfoResponse(f)
    ensures IsInfoResponse(f) ==>
              RustInfo(f) == Some(Info(f.payload[0], f.payload[1] as int + f.payload[2] as int * 256, f.payload[3]))
  {
  }

  /** The types the multiplexer finds a client for. */
  function Wired(table: seq<Callbacks>): set<nibble>
    requires |table| == TYPE_UNKNOWN
  {
    set t: nibble | HasClient(table, t)
  }

  /** From table to host: both hosts learn the device's mask and expected number, and a
      learned bit says whether a frame with a payload gets past the device's receive
      guard: the handler returns from it if and only if the bit of its type is set. */
  method LearnTypes(table: seq<Callbacks>, d: Device) returns (bits: word, answer: Frame)
    requires |table| == TYPE_UNKNOWN && d.wired == Wired(table) && !d.stuck
    ensures answer == InfoResponse(d.(mask := bits))
    ensures HostInfo(answer.payload) == RustInfo(answer) == Some(Info(PROTOCOL_VERSION, bits, d.rx))
    ensures forall f: Frame :: f.hdr.length > 0 ==> (!React(d, f).dev.stuck <==> TestBit(bits, f.hdr.typ))
  {
    bits := SupportedTypesMask(table);
    answer := InfoResponse(d.(mask := bits));
    forall f: Frame | f.hdr.length > 0 ensures !React(d, f).dev.stuck <==> TestBit(bits, f.hdr.typ) {
      assert f.hdr.typ in d.wired <==> HasClient(table, f.hdr.typ);
    }
  }
}
