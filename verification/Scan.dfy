/** Scan results: collected on the device until the scan is done, sent as one
notification, and handed out one by one on the host. */
module Scan {
  datatype Event<T> = Found(result: T) | Done

  /** The results since the last `Done`. */
  function Pending<T>(events: seq<Event<T>>): seq<T> {
    if events == [] then []
    else match events[|events| - 1]
      case Found(r) => Pending(events[..|events| - 1]) + [r]
      case Done => []
  }

  function Min(a: nat, b: nat): nat { if a < b then a else b }

  /** What each scan is expected to report: its first `max` results. */
  function Reports<T>(events: seq<Event<T>>, max: nat): seq<seq<T>> {
    if events == [] then []
    else
      var before := events[..|events| - 1];
      match events[|events| - 1]
      case Found(_) => Reports(before, max)
      case Done => Reports(before, max) + [Pending(before)[..Min(|Pending(before)|, max)]]
  }

  /** One call of the host's scan callback; `End` is the null entry. */
  datatype Call<T> = Entry(result: T) | End

  function CallsFor<T>(report: seq<T>): (calls: seq<Call<T>>)
    ensures |calls| == |report| + 1
    ensures forall k :: 0 <= k < |report| ==> calls[k] == Entry(report[k])
    ensures calls[|report|] == End
  {
    seq(|report|, k requires 0 <= k < |report| => Entry(report[k])) + [End]
  }

  function AllCalls<T>(reports: seq<seq<T>>): seq<Call<T>> {
    if reports == [] then [] else AllCalls(reports[..|reports| - 1]) + CallsFor(reports[|reports| - 1])
  }

  /** The device's collector: a fixed buffer and a fill count. */
  class Collector<T(0)> {
    const results: array<T>
    var count: nat

    ghost predicate Holds(pending: seq<T>)
      reads this, results
    {
      count == Min(|pending|, results.Length) && results[..count] == pending[..count]
    }

    constructor (max: nat)
      ensures Holds([]) && fresh(results) && results.Length == max
    {
      results := new T[max];
      count := 0;
    }

    /** `handle_wifi_scan_result`: a full buffer drops the result. */
    method Result(r: T, ghost pending: seq<T>)
      requires Holds(pending)
      modifies this, results
      ensures Holds(pending + [r])
    {
      if count >= results.Length {
        return;
      }
      results[count] := r;
      count := count + 1;
    }

    /** `send_scan_done_notification`. */
    method ScanDone(ghost pending: seq<T>) returns (report: seq<T>)
      requires Holds(pending)
      modifies this
      ensures report == pending[..Min(|pending|, results.Length)]
      ensures Holds([])
    {
      report := results[..count];
      count := 0;
    }
  }

  /** `handle_scan_done`: without a registered callback nothing happens. */
  method HandleScanDone<T>(report: seq<T>, registered: bool) returns (calls: seq<Call<T>>)
    ensures calls == if registered then CallsFor(report) else []
  {
    calls := [];
    if !registered {
      return;
    }
    for i := 0 to |report|
      invariant |calls| == i && forall k :: 0 <= k < i ==> calls[k] == Entry(report[k])
    {
      calls := calls + [Entry(report[i])];
    }
    calls := calls + [End];
  }

  /** Any stream of events: the host's callback sees, for each finished scan, its first
      `max` results in order and then exactly one end. */
  method ReportScans<T(0)>(events: seq<Event<T>>, max: nat) returns (calls: seq<Call<T>>)
    ensures calls == AllCalls(Reports(events, max))
  {
    var c := new Collector<T>(max);
    calls := [];
    for n := 0 to |events|
      invariant fresh(c) && fresh(c.results) && c.results.Length == max
      invariant c.Holds(Pending(events[..n]))
      invariant calls == AllCalls(Reports(events[..n], max))
    {
      assert events[..n + 1][..n] == events[..n];
      match events[n] {
        case Found(r) =>
          c.Result(r, Pending(events[..n]));
        case Done =>
          var report := c.ScanDone(Pending(events[..n]));
          var more := HandleScanDone(report, true);
          ghost var before := Reports(events[..n], max);
          assert (before + [report])[..|before|] == before;
          calls := calls + more;
      }
    }
    assert events[..|events|] == events;
  }
}
