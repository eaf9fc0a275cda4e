/** A UART seen from the driver API: a receive FIFO that hands out any number of
the waiting bytes, at least one when one is waiting, and a transmit side whose
FIFO takes any part of what it is offered. */
module Uart {
  import opened Wire
  import opened Landing

  class Port {
    var rx: seq<byte>
    /** Set when a read always returns everything that is waiting and fits. */
    const greedy: bool

    constructor (greedy: bool)
      ensures rx == [] && this.greedy == greedy
    {
      rx := [];
      this.greedy := greedy;
    }

    method Deliver(chunk: seq<byte>)
      modifies this
      ensures rx == old(rx) + chunk
    {
      rx := rx + chunk;
    }

    /** `uart_fifo_read`: takes a non-empty prefix of what is waiting. */
    method Read(max: nat) returns (got: seq<byte>)
      modifies this
      ensures old(rx) == got + rx
      ensures |got| <= max
      ensures got == [] <==> (max == 0 || old(rx) == [])
      ensures greedy ==> |got| == max || rx == []
    {
      var most := if max < |rx| then max else |rx|;
      var n: nat;
      if greedy || most == 0 {
        n := most;
      } else {
        n :| 1 <= n <= most;
      }
      got, rx := rx[..n], rx[n..];
    }
  }

  /** All that is in the FIFO or arrives later. */
  ghost function Pending(port: Port, later: seq<seq<byte>>): seq<byte>
    reads port
  {
    port.rx + Flatten(later)
  }

  /** Reads again and again until something is there, while `later` arrives. */
  method ReadOrWait(port: Port, max: nat, later: seq<seq<byte>>) returns (got: seq<byte>, rest: seq<seq<byte>>)
    requires max > 0
    modifies port
    ensures old(Pending(port, later)) == got + Pending(port, rest) && |got| <= max
    ensures got == [] <==> old(Pending(port, later)) == []
    ensures got == [] ==> rest == [] && port.rx == []
    ensures later == [] ==> rest == []
  {
    got, rest := [], later;
    while true
      invariant Pending(port, rest) == old(Pending(port, later)) && (later == [] ==> rest == [])
      decreases |rest|
    {
      ghost var before := port.rx;
      got := port.Read(max);
      if got != [] {
        assert (got + port.rx) + Flatten(rest) == got + (port.rx + Flatten(rest));
        return;
      }
      assert port.rx == [];
      if rest == [] {
        return;
      }
      FlattenFirst(rest);
      port.Deliver(rest[0]);
      assert [] + (rest[0] + Flatten(rest[1..])) == rest[0] + Flatten(rest[1..]);
      rest := rest[1..];
    }
  }

  datatype TxResult = Sent | DriverError | FifoFull

  const TX_TIMEOUT_MS: nat := 500
  const BUSY_WAIT_US: nat := 10

  const DEADLINE_US: nat := (TX_TIMEOUT_MS + 1) * 1000

  /** No more busy waits than these fit before the time limit. */
  const MAX_WAITS: nat := (TX_TIMEOUT_MS + 1) * 1000 / BUSY_WAIT_US

  /** The clock, from the start of the call on, and the bytes taken so far. */
  datatype Progress = Progress(clock: nat, taken: nat)

  /** After `k` driver calls and the busy wait after each that found the FIFO full. */
  function After(waited: nat, fill: nat -> int, late: nat -> nat, k: nat): Progress {
    if k == 0 then Progress(waited, 0)
    else
      var p, n := After(waited, fill, late, k - 1), fill(k - 1);
      Progress(p.clock + late(k - 1) + (if n == 0 then BUSY_WAIT_US else 0), p.taken + (if n > 0 then n else 0))
  }

  function Min(a: nat, b: nat): nat {
    if a < b then a else b
  }

  lemma WrittenOn(wire: seq<byte>, data: seq<byte>, written: nat, took: nat)
    requires written + took <= |data|
    ensures (wire + data[..written]) + data[written..written + took] == wire + data[..written + took]
  {
    assert data[..written] + data[written..written + took] == data[..written + took];
  }

  /** The time on the clock when the k-th driver call returns. */
  function Clock(waited: nat, fill: nat -> int, late: nat -> nat, k: nat): nat {
    After(waited, fill, late, k).clock + late(k)
  }

  /** None of the first `n` driver calls ends the loop: no error, and no full FIFO past the
      time limit. */
  ghost predicate GoesOn(waited: nat, fill: nat -> int, late: nat -> nat, n: int) {
    forall k :: 0 <= k < n ==>
      fill(k) >= 0 && (fill(k) == 0 ==> Clock(waited, fill, late, k) / 1000 <= TX_TIMEOUT_MS)
  }

  lemma WaitsFit(now: nat, waits: nat)
    requires now / 1000 <= TX_TIMEOUT_MS && waits * BUSY_WAIT_US <= now
    ensures waits < MAX_WAITS && (waits + 1) * BUSY_WAIT_US <= now + BUSY_WAIT_US
  {
  }

  /** Every call takes a byte or costs one of the busy waits that fit in the time. */
  lemma {:induction false} CallsBounded(waited: nat, fill: nat -> int, late: nat -> nat, n: nat) returns (waits: nat)
    requires GoesOn(waited, fill, late, n)
    ensures n <= After(waited, fill, late, n).taken + waits
    ensures waits <= MAX_WAITS && waits * BUSY_WAIT_US <= After(waited, fill, late, n).clock
  {
    waits := 0;
    if n > 0 {
      waits := CallsBounded(waited, fill, late, n - 1);
      if fill(n - 1) == 0 {
        WaitsFit(Clock(waited, fill, late, n - 1), waits);
        waits := waits + 1;
      }
    }
  }

  /** The loop after `calls` driver calls. */
  ghost predicate Going(waited: nat, fill: nat -> int, late: nat -> nat, len: nat, calls: nat, now: nat, written: nat) {
    && GoesOn(waited, fill, late, calls) && now == After(waited, fill, late, calls).clock
    && written == Min(len, After(waited, fill, late, calls).taken)
    && (calls == 0 || After(waited, fill, late, calls - 1).taken < len)
  }

  /** What ended the loop: only the last call did, and how. */
  ghost predicate Ended(waited: nat, fill: nat -> int, late: nat -> nat, len: nat, calls: nat, result: TxResult) {
    && GoesOn(waited, fill, late, calls - 1)
    && (calls == 0 || After(waited, fill, late, calls - 1).taken < len)
    && match result
       case Sent => After(waited, fill, late, calls).taken >= len
       case DriverError => calls > 0 && fill(calls - 1) < 0
       case FifoFull =>
         calls > 0 && fill(calls - 1) == 0 && Clock(waited, fill, late, calls - 1) / 1000 > TX_TIMEOUT_MS
  }

  /** One turn of the loop, with what the driver returned and the clock then. */
  lemma Turn(waited: nat, fill: nat -> int, late: nat -> nat, len: nat, calls: nat, was: nat, written: nat,
             n: int, now: nat)
    requires Going(waited, fill, late, len, calls, was, written) && written < len
    requires n == fill(calls) && now == was + late(calls)
    ensures n < 0 ==> Ended(waited, fill, late, len, calls + 1, DriverError)
    ensures n > 0 ==> Going(waited, fill, late, len, calls + 1, now, written + Min(n, len - written))
    ensures n == 0 && now / 1000 > TX_TIMEOUT_MS ==> Ended(waited, fill, late, len, calls + 1, FifoFull)
    ensures n == 0 && now / 1000 <= TX_TIMEOUT_MS ==>
              Going(waited, fill, late, len, calls + 1, now + BUSY_WAIT_US, written)
    ensures n <= 0 ==> written == Min(len, After(waited, fill, late, calls + 1).taken)
  {
    assert now == Clock(waited, fill, late, calls);
    assert After(waited, fill, late, calls).taken == written;
  }

  lemma EndsInTime(waited: nat, fill: nat -> int, late: nat -> nat, len: nat, calls: nat, result: TxResult)
    requires Ended(waited, fill, late, len, calls, result)
    ensures calls <= len + MAX_WAITS + 1
  {
    if calls > 0 {
      var waits := CallsBounded(waited, fill, late, calls - 1);
    }
  }

  /** `bus_data_tx` and the loop of `serial_data_tx`. `fill(k)` is what the driver
      returns on the k-th call and `late(k)` how many microseconds pass during it
      on top of the busy wait; `waited` is the time already spent on the mutex.
      The driver never takes more than it is offered. The loop ends at the first driver
      error, at the first full FIFO past the time limit, or when all is written. */
  method DataTx(wire: seq<byte>, data: seq<byte>, waited: nat, fill: nat -> int, late: nat -> nat)
    returns (result: TxResult, wire': seq<byte>, calls: nat)
    ensures wire' == wire + data[..Min(|data|, After(waited, fill, late, calls).taken)]
    ensures Ended(waited, fill, late, |data|, calls, result)
    ensures calls <= |data| + MAX_WAITS + 1
  {
    var written: nat, now: nat := 0, waited;
    calls, wire' := 0, wire;
    while written < |data|
      invariant 0 <= written <= |data|
      invariant wire' == wire + data[..written]
      invariant Going(waited, fill, late, |data|, calls, now, written)
      decreases |data| - written, if now < DEADLINE_US then DEADLINE_US - now else 0
    {
      var n := fill(calls);
      Turn(waited, fill, late, |data|, calls, now, written, n, now + late(calls));
      now := now + late(calls);
      calls := calls + 1;
      if n < 0 {
        EndsInTime(waited, fill, late, |data|, calls, DriverError);
        return DriverError, wire', calls;
      }
      if n > 0 {
        var took := Min(n, |data| - written);
        WrittenOn(wire, data, written, took);
        wire' := wire' + data[written..written + took];
        written := written + took;
        continue;
      }
      if now / 1000 > TX_TIMEOUT_MS {
        EndsInTime(waited, fill, late, |data|, calls, FifoFull);
        return FifoFull, wire', calls;
      }
      now := now + BUSY_WAIT_US;
    }
    EndsInTime(waited, fill, late, |data|, calls, Sent);
    result := Sent;
  }
}
