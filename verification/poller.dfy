/** The execution-attempt poller: a cursor over ledgers and a cache of decoded attempts. */
module Poller {
  import opened Wrappers

  const MIN_STELLAR_LEDGER: nat := 7
  /** `estimatedLedgerCloseTime`, in nanoseconds. */
  const LEDGER_CLOSE_TIME: int := 6_000_000_000

  datatype Attempt = Attempt(messageId: string, report: string)

  /** An event as the RPC node returns it: `messageId` is None when it does not parse. */
  datatype Event = Event(ledger: nat, messageId: Option<string>, txHash: string)

  /** An event together with what fetching and decoding its transaction yields, None for any failure. */
  datatype Seen = Seen(event: Event, decoded: Option<Attempt>)

  type Cache = map<string, seq<Attempt>>

  function Lookup(cache: Cache, id: string): seq<Attempt> {
    if id in cache then cache[id] else []
  }

  /** The event yields an attempt to cache: it parsed, its transaction decoded, and the message ids agree. */
  predicate Cacheable(s: Seen) {
    s.event.messageId.Some? && s.decoded.Some? && s.decoded.value.messageId == s.event.messageId.value
  }

  function Process(cache: Cache, s: Seen): Cache {
    if Cacheable(s) then
      cache[s.event.messageId.value := Lookup(cache, s.event.messageId.value) + [s.decoded.value]]
    else cache
  }

  function ProcessAll(cache: Cache, log: seq<Seen>): Cache {
    if log == [] then cache else Process(ProcessAll(cache, log[..|log| - 1]), log[|log| - 1])
  }

  /** The attempts a log yields for one message, in order. */
  function AttemptsFor(log: seq<Seen>, id: string): seq<Attempt> {
    if log == [] then []
    else
      var s := log[|log| - 1];
      AttemptsFor(log[..|log| - 1], id) +
      (if Cacheable(s) && s.event.messageId.value == id then [s.decoded.value] else [])
  }

  /** The cache holds, under each message id, exactly the attempts its events yielded; all carry that id. */
  lemma {:induction false} CacheHoldsExactlyItsAttempts(log: seq<Seen>, id: string)
    ensures Lookup(ProcessAll(map[], log), id) == AttemptsFor(log, id)
    ensures forall a :: a in Lookup(ProcessAll(map[], log), id) ==> a.messageId == id
  {
    if log != [] {
      CacheHoldsExactlyItsAttempts(log[..|log| - 1], id);
    }
  }

  /** One more event adds its attempt behind the others of its message, if it was decoded and the ids agree, and nothing else. */
  lemma {:induction false} OneMoreSeen(log: seq<Seen>, s: Seen, id: string)
    ensures Lookup(ProcessAll(map[], log + [s]), id) ==
            Lookup(ProcessAll(map[], log), id) +
            (if s.event.messageId == Some(id) && s.decoded.Some? && s.decoded.value.messageId == id
             then [s.decoded.value] else [])
  {
    assert (log + [s])[..|log|] == log;
  }

  lemma {:induction false} ProcessAllAppend(cache: Cache, log: seq<Seen>, more: seq<Seen>)
    ensures ProcessAll(cache, log + more) == ProcessAll(ProcessAll(cache, log), more)
  {
    if more == [] {
      assert log + more == log;
    } else {
      assert (log + more)[..|log + more| - 1] == log + more[..|more| - 1];
      ProcessAllAppend(cache, log, more[..|more| - 1]);
    }
  }

  // ---- Start ledger ----

  /** `uint32(window / estimatedLedgerCloseTime)`: Go divides toward zero and wraps. */
  function LookbackLedgers(window: int): nat {
    var quotient := if window >= 0 then window / LEDGER_CLOSE_TIME else -((-window) / LEDGER_CLOSE_TIME);
    quotient % 0x1_0000_0000
  }

  function StartLedger(latest: nat, window: int): nat {
    var lookback := LookbackLedgers(window);
    if lookback >= latest then MIN_STELLAR_LEDGER
    else if latest - lookback > MIN_STELLAR_LEDGER then latest - lookback else MIN_STELLAR_LEDGER
  }

  /** A 64-bit, non-negative window does not wrap; the start is the window before the latest ledger, or the floor. */
  lemma {:induction false} StartLedgerCoversTheWindow(latest: nat, window: int)
    requires 0 <= window < 0x8000_0000_0000_0000
    ensures var start := StartLedger(latest, window);
            && start >= 7
            && (start > 7 ==> start + window / 6_000_000_000 == latest)
            && (start == 7 ==> latest <= 7 + window / 6_000_000_000)
  {
  }

  // ---- The cursor ----

  /** The poller with its history: the windows queried successfully and the events they returned. */
  datatype State = State(start: nat, last: nat, cache: Cache, windows: seq<(nat, nat)>, log: seq<Seen>)

  /** What the RPC node answers during one poll; None is an error. */
  datatype Answers = Answers(latest: Option<nat>, events: Option<seq<Seen>>)

  function Begin(start: nat): State {
    State(start, start, map[], [], [])
  }

  /** This poll queries for events. */
  predicate Queries(st: State, a: Answers) {
    a.latest.Some? && a.latest.value > st.last
  }

  function Poll(st: State, a: Answers): State {
    if !Queries(st, a) || a.events.None? then st
    else State(st.start, a.latest.value, ProcessAll(st.cache, a.events.value),
               st.windows + [(st.last, a.latest.value)], st.log + a.events.value)
  }

  predicate PollFails(st: State, a: Answers) {
    a.latest.None? || (Queries(st, a) && a.events.None?)
  }

  function PollAll(st: State, answers: seq<Answers>): State
    decreases |answers|
  {
    if answers == [] then st else Poll(PollAll(st, answers[..|answers| - 1]), answers[|answers| - 1])
  }

  /** The windows lie end to end from `lo` to `hi`, none of them empty. */
  ghost predicate Tile(windows: seq<(nat, nat)>, lo: nat, hi: nat)
    decreases |windows|
  {
    if windows == [] then lo == hi
    else
      var w := windows[|windows| - 1];
      w.0 < w.1 == hi && Tile(windows[..|windows| - 1], lo, w.0)
  }

  lemma {:induction false} TileAppend(windows: seq<(nat, nat)>, lo: nat, hi: nat, next: nat)
    requires Tile(windows, lo, hi) && hi < next
    ensures Tile(windows + [(hi, next)], lo, next)
  {
    assert (windows + [(hi, next)])[..|windows|] == windows;
  }

  /** Every ledger in range is covered by exactly one window. */
  lemma {:induction false} TilesCoverOnce(windows: seq<(nat, nat)>, lo: nat, hi: nat, ledger: nat)
    requires Tile(windows, lo, hi)
    ensures lo <= hi
    ensures lo <= ledger < hi <==> exists i :: 0 <= i < |windows| && windows[i].0 <= ledger < windows[i].1
    ensures forall i, j :: 0 <= i < j < |windows| ==> windows[i].1 <= windows[j].0
    decreases |windows|
  {
    if windows != [] {
      var front, w := windows[..|windows| - 1], windows[|windows| - 1];
      TilesCoverOnce(front, lo, w.0, ledger);
      TilesEndBelow(front, lo, w.0);
      assert forall i :: 0 <= i < |front| ==> front[i] == windows[i];
      if lo <= ledger < hi {
        if ledger >= w.0 {
          assert windows[|windows| - 1].0 <= ledger < windows[|windows| - 1].1;
        } else {
          var i :| 0 <= i < |front| && front[i].0 <= ledger < front[i].1;
          assert windows[i].0 <= ledger < windows[i].1;
        }
      }
    }
  }

  lemma {:induction false} TilesEndBelow(windows: seq<(nat, nat)>, lo: nat, hi: nat)
    requires Tile(windows, lo, hi)
    ensures lo <= hi && forall i :: 0 <= i < |windows| ==> lo <= windows[i].0 <= windows[i].1 <= hi
    decreases |windows|
  {
    if windows != [] {
      TilesEndBelow(windows[..|windows| - 1], lo, windows[|windows| - 1].0);
    }
  }

  /** The windows tile history up to the cursor, and the cache is what the log yields. */
  ghost predicate Tiled(st: State) {
    Tile(st.windows, st.start, st.last) && st.cache == ProcessAll(map[], st.log)
  }

  lemma {:induction false} PollKeepsTiled(st: State, a: Answers)
    requires Tiled(st)
    ensures var after := Poll(st, a);
            Tiled(after) && after.start == st.start && st.last <= after.last
  {
    if Queries(st, a) && a.events.Some? {
      TileAppend(st.windows, st.start, st.last, a.latest.value);
      ProcessAllAppend(map[], st.log, a.events.value);
    }
  }

  lemma {:induction false} PollAllKeepsTiled(st: State, answers: seq<Answers>)
    requires Tiled(st)
    ensures Tiled(PollAll(st, answers)) && PollAll(st, answers).start == st.start
    decreases |answers|
  {
    if answers != [] {
      var front, a := answers[..|answers| - 1], answers[|answers| - 1];
      PollAllKeepsTiled(st, front);
      PollKeepsTiled(PollAll(st, front), a);
    }
  }

  lemma {:induction false} CursorNeverGoesBack(st: State, answers: seq<Answers>, k: nat)
    requires k <= |answers|
    ensures PollAll(st, answers[..k]).last <= PollAll(st, answers).last
    decreases |answers|
  {
    if k < |answers| {
      var front := answers[..|answers| - 1];
      assert answers[..k] == front[..k];
      CursorNeverGoesBack(st, front, k);
    } else {
      assert answers[..k] == answers;
    }
  }

  /** Through any run of answers, failures included, the windows tile history up to the cursor, which never goes back. */
  lemma {:induction false} WindowsTile(start: nat, answers: seq<Answers>, k: nat)
    requires k <= |answers|
    ensures var st := PollAll(Begin(start), answers);
            && st.start == start && Tile(st.windows, start, st.last)
            && PollAll(Begin(start), answers[..k]).last <= st.last
            && st.cache == ProcessAll(map[], st.log)
  {
    assert Tiled(Begin(start));
    PollAllKeepsTiled(Begin(start), answers);
    CursorNeverGoesBack(Begin(start), answers, k);
  }

  // ---- Complete answers ----

  /** The chain's events from ledger `lo` up to but not including `hi`. */
  ghost function EventsIn(chain: nat -> seq<Event>, lo: nat, hi: nat): seq<Event>
    decreases hi
  {
    if hi <= lo then [] else EventsIn(chain, lo, hi - 1) + chain(hi - 1)
  }

  lemma {:induction false} EventsSplit(chain: nat -> seq<Event>, lo: nat, mid: nat, hi: nat)
    requires lo <= mid <= hi
    ensures EventsIn(chain, lo, hi) == EventsIn(chain, lo, mid) + EventsIn(chain, mid, hi)
    decreases hi
  {
    if mid < hi {
      EventsSplit(chain, lo, mid, hi - 1);
    }
  }

  function EventsOf(log: seq<Seen>): (r: seq<Event>)
    ensures |r| == |log| && forall i :: 0 <= i < |log| ==> r[i] == log[i].event
  {
    seq(|log|, i requires 0 <= i < |log| => log[i].event)
  }

  lemma {:induction false} EventsOfAppend(a: seq<Seen>, b: seq<Seen>)
    ensures EventsOf(a + b) == EventsOf(a) + EventsOf(b)
  {
  }

  /** Every successful query answers with all events of its half-open window. */
  ghost predicate Complete(chain: nat -> seq<Event>, st: State, answers: seq<Answers>)
    decreases |answers|
  {
    answers != [] ==>
      var before, a := PollAll(st, answers[..|answers| - 1]), answers[|answers| - 1];
      && Complete(chain, st, answers[..|answers| - 1])
      && (Queries(before, a) && a.events.Some? ==>
            EventsOf(a.events.value) == EventsIn(chain, before.last, a.latest.value))
  }

  /** With complete answers the poller has processed each event of the covered ledgers exactly once, in order. */
  lemma {:induction false} EachEventOnce(chain: nat -> seq<Event>, start: nat, answers: seq<Answers>)
    requires Complete(chain, Begin(start), answers)
    ensures var st := PollAll(Begin(start), answers);
            start <= st.last && EventsOf(st.log) == EventsIn(chain, start, st.last)
    decreases |answers|
  {
    if answers != [] {
      var front, a := answers[..|answers| - 1], answers[|answers| - 1];
      var before := PollAll(Begin(start), front);
      EachEventOnce(chain, start, front);
      if Queries(before, a) && a.events.Some? {
        EventsSplit(chain, start, before.last, a.latest.value);
        EventsOfAppend(before.log, a.events.value);
      }
    }
  }

  /** How many events announce message `id`. */
  function Announced(events: seq<Event>, id: string): nat {
    if events == [] then 0
    else Announced(events[..|events| - 1], id) + (if events[|events| - 1].messageId == Some(id) then 1 else 0)
  }

  lemma {:induction false} AttemptsAreAnnounced(log: seq<Seen>, id: string)
    ensures |AttemptsFor(log, id)| <= Announced(EventsOf(log), id)
    ensures |AttemptsFor(log, id)| == Announced(EventsOf(log), id) <==>
            forall i :: 0 <= i < |log| && log[i].event.messageId == Some(id) ==>
              log[i].decoded.Some? && log[i].decoded.value.messageId == id
  {
    if log != [] {
      var front := log[..|log| - 1];
      AttemptsAreAnnounced(front, id);
      assert EventsOf(log)[..|log| - 1] == EventsOf(front);
      assert forall i :: 0 <= i < |front| ==> front[i] == log[i];
    }
  }

  /**
   With complete answers the cache holds an attempt for every event of the covered ledgers that announces
   `id` exactly when each of them was fetched and decoded at its one look, and otherwise fewer.
   */
  lemma {:induction false} CacheIsCompleteIff(chain: nat -> seq<Event>, start: nat, answers: seq<Answers>, id: string)
    requires Complete(chain, Begin(start), answers)
    ensures var st := PollAll(Begin(start), answers);
            var held, announced := |Lookup(st.cache, id)|, Announced(EventsIn(chain, start, st.last), id);
            && held <= announced
            && (held == announced <==>
                  forall i :: 0 <= i < |st.log| && st.log[i].event.messageId == Some(id) ==>
                    st.log[i].decoded.Some? && st.log[i].decoded.value.messageId == id)
  {
    var st := PollAll(Begin(start), answers);
    WindowsTile(start, answers, 0);
    CacheHoldsExactlyItsAttempts(st.log, id);
    EachEventOnce(chain, start, answers);
    AttemptsAreAnnounced(st.log, id);
  }

  lemma {:induction false} CompletePrefix(chain: nat -> seq<Event>, st: State, answers: seq<Answers>, k: nat)
    requires Complete(chain, st, answers) && k <= |answers|
    ensures Complete(chain, st, answers[..k])
    decreases |answers|
  {
    if k < |answers| {
      assert answers[..k] == answers[..|answers| - 1][..k];
      CompletePrefix(chain, st, answers[..|answers| - 1], k);
    } else {
      assert answers[..k] == answers;
    }
  }

  lemma {:induction false} LogOnlyGrows(st: State, answers: seq<Answers>, k: nat)
    requires k <= |answers|
    ensures PollAll(st, answers[..k]).log <= PollAll(st, answers).log
    decreases |answers|
  {
    if k < |answers| {
      var front := answers[..|answers| - 1];
      assert answers[..k] == front[..k];
      LogOnlyGrows(st, front, k);
    } else {
      assert answers[..k] == answers;
    }
  }

  lemma {:induction false} LaterEvents(early: seq<Seen>, late: seq<Seen>, seen: seq<Event>, later: seq<Event>)
    requires early <= late && EventsOf(early) == seen && EventsOf(late) == seen + later
    ensures EventsOf(late[|early|..]) == later
  {
    var rest := EventsOf(late[|early|..]);
    forall i | 0 <= i < |rest| ensures rest[i] == later[i] {
      assert rest[i] == late[|early| + i].event == (seen + later)[|early| + i];
    }
  }

  /**
   An event is looked at once: what was seen by poll `k` stays as it was seen, and all later polls see
   only events of later ledgers. So an attempt whose transaction could not be fetched is never cached.
   */
  lemma {:induction false} EachEventHasOneLook(chain: nat -> seq<Event>, start: nat, answers: seq<Answers>, k: nat)
    requires Complete(chain, Begin(start), answers) && k <= |answers|
    ensures var early, late := PollAll(Begin(start), answers[..k]), PollAll(Begin(start), answers);
            && early.last <= late.last && early.log <= late.log
            && EventsOf(late.log[|early.log|..]) == EventsIn(chain, early.last, late.last)
  {
    var early, late := PollAll(Begin(start), answers[..k]), PollAll(Begin(start), answers);
    WindowsTile(start, answers, k);
    LogOnlyGrows(Begin(start), answers, k);
    CompletePrefix(chain, Begin(start), answers, k);
    EachEventOnce(chain, start, answers[..k]);
    EachEventOnce(chain, start, answers);
    EventsSplit(chain, start, early.last, late.last);
    LaterEvents(early.log, late.log, EventsIn(chain, start, early.last), EventsIn(chain, early.last, late.last));
  }

  // ---- The poller object ----

  class ExecutionAttemptPoller {
    const lookbackWindow: int
    var startLedger: nat
    var lastPolledLedger: nat
    var attemptCache: Cache
    ghost var windows: seq<(nat, nat)>
    ghost var log: seq<Seen>

    ghost function View(): State
      reads this
    {
      State(startLedger, lastPolledLedger, attemptCache, windows, log)
    }

    constructor (window: int)
      ensures lookbackWindow == window && View() == Begin(0)
      ensures startLedger == lastPolledLedger == 0 && attemptCache == map[] && windows == [] && log == []
    {
      lookbackWindow := window;
      startLedger, lastPolledLedger, attemptCache, windows, log := 0, 0, map[], [], [];
    }

    /** Start: fails only when the latest ledger is unknown; a failed backfill leaves the cursor at the start. */
    method Start(latest: Option<nat>, backfill: Answers) returns (failed: bool)
      modifies this
      ensures failed <==> latest.None?
      ensures failed ==> View() == old(View())
      ensures !failed ==>
                var start := Begin(StartLedger(latest.value, lookbackWindow));
                View() == Poll(start.(cache := old(attemptCache)), backfill)
      // the backfill's end if it succeeded and brought anything, the start ledger if not
      ensures !failed ==>
                && startLedger == StartLedger(latest.value, lookbackWindow)
                && lastPolledLedger ==
                   (if backfill.latest.Some? && backfill.latest.value > startLedger && backfill.events.Some?
                    then backfill.latest.value else startLedger)
    {
      if latest.None? {
        return true;
      }
      startLedger := StartLedger(latest.value, lookbackWindow);
      lastPolledLedger := startLedger;
      windows, log := [], [];
      var backfillFailed := PollForEvents(backfill);
      if backfillFailed {
        lastPolledLedger := startLedger;
      }
      return false;
    }

    method PollForEvents(a: Answers) returns (failed: bool)
      modifies this
      ensures View() == Poll(old(View()), a)
      ensures failed <==> PollFails(old(View()), a)
      // it fails without the latest ledger, or without the events when there are new ledgers
      ensures failed <==> a.latest.None? || (a.latest.value > old(lastPolledLedger) && a.events.None?)
      // failing, or with no new ledger, it changes nothing; otherwise the cursor moves to the latest ledger
      ensures failed || a.latest.value <= old(lastPolledLedger) ==> View() == old(View())
      ensures !failed && a.latest.value > old(lastPolledLedger) ==>
                && startLedger == old(startLedger) && lastPolledLedger == a.latest.value
                && windows == old(windows) + [(old(lastPolledLedger), a.latest.value)]
                && log == old(log) + a.events.value
                && attemptCache == ProcessAll(old(attemptCache), a.events.value)
    {
      if a.latest.None? {
        return true;
      }
      var toLedger := a.latest.value;
      if toLedger <= lastPolledLedger {
        return false;
      }
      if a.events.None? {
        return true;
      }
      var events := a.events.value;
      for i := 0 to |events|
        invariant attemptCache == ProcessAll(old(attemptCache), events[..i])
        invariant startLedger == old(startLedger) && lastPolledLedger == old(lastPolledLedger)
        invariant windows == old(windows) && log == old(log)
      {
        var e := events[i];
        assert events[..i + 1][..i] == events[..i];
        if e.event.messageId.None? {
          continue;
        }
        ProcessExecutionStateChanged(e.event.messageId.value, e);
      }
      assert events[..|events|] == events;
      windows := windows + [(lastPolledLedger, toLedger)];
      log := log + events;
      lastPolledLedger := toLedger;
      return false;
    }

    method ProcessExecutionStateChanged(messageId: string, e: Seen)
      requires e.event.messageId == Some(messageId)
      modifies this`attemptCache
      ensures attemptCache == Process(old(attemptCache), e)
      // not decoded, or decoded to another message: nothing changes
      ensures e.decoded.None? || e.decoded.value.messageId != messageId ==> attemptCache == old(attemptCache)
      // otherwise the attempt goes behind the message's others
      ensures e.decoded.Some? && e.decoded.value.messageId == messageId ==>
                attemptCache == old(attemptCache)[messageId :=
                  (if messageId in old(attemptCache) then old(attemptCache)[messageId] else []) + [e.decoded.value]]
    {
      if e.decoded.None? {
        return;
      }
      var attempt := e.decoded.value;
      if messageId != attempt.messageId {
        return;
      }
      var attempts := if messageId in attemptCache then attemptCache[messageId] else [];
      attempts := attempts + [attempt];
      attemptCache := attemptCache[messageId := attempts];
    }

    method GetExecutionAttempts(messageId: string) returns (attempts: seq<Attempt>)
      ensures attempts == Lookup(attemptCache, messageId)
      ensures messageId in attemptCache ==> attempts == attemptCache[messageId]
      ensures messageId !in attemptCache ==> attempts == []
    {
      if messageId !in attemptCache {
        return [];
      }
      return attemptCache[messageId];
    }
  }
}
