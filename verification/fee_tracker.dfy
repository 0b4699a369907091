/** The cache of network fee percentiles: refreshed at most once an interval, stale data served on failure. */
module FeeTracker {
  import opened Wrappers

  datatype Snapshot = Snapshot(p50: nat, p90: nat)
  datatype Fetch = Fetch(at: int, data: Snapshot)

  class FeeTracker {
    const pollInterval: int
    var haveData: bool
    var fetchedAt: int
    var p50: nat
    var p90: nat
    /** Every successful fetch so far. */
    ghost var fetches: seq<Fetch>

    ghost predicate Valid()
      reads this
    {
      && (haveData <==> fetches != [])
      && (fetches != [] ==> fetches[|fetches| - 1] == Fetch(fetchedAt, Snapshot(p50, p90)))
      && (pollInterval > 0 ==>
            forall i :: 0 < i < |fetches| ==> fetches[i].at - fetches[i - 1].at >= pollInterval)
    }

    constructor (interval: int)
      ensures Valid() && fetches == [] && pollInterval == interval
    {
      pollInterval := interval;
      haveData, fetchedAt, p50, p90, fetches := false, 0, 0, 0, [];
    }

    /**
     `now` is the clock and `response` what `GetFeeStats` would answer, None for an error. The answer is
     the last successful snapshot; an error is returned exactly when there has never been one. `response`
     is looked at only when no snapshot younger than the interval is held.
     */
    method SorobanInclusionPercentiles(now: int, response: Option<Snapshot>) returns (r: Option<Snapshot>)
      requires Valid()
      modifies this
      ensures Valid()
      ensures var due := pollInterval <= 0 || old(fetches) == [] || now - old(fetches)[|old(fetches)| - 1].at >= pollInterval;
              fetches == old(fetches) + (if due && response.Some? then [Fetch(now, response.value)] else [])
      ensures r.None? <==> fetches == []
      ensures r.Some? ==> r.value == fetches[|fetches| - 1].data
    {
      if pollInterval > 0 && haveData && now - fetchedAt < pollInterval {
        return Some(Snapshot(p50, p90));
      }
      if response.None? {
        if haveData {
          return Some(Snapshot(p50, p90));
        }
        return None;
      }
      p50 := response.value.p50;
      p90 := response.value.p90;
      fetchedAt := now;
      haveData := true;
      fetches := fetches + [Fetch(now, response.value)];
      return Some(Snapshot(p50, p90));
    }
  }
}
