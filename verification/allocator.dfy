/**
 The per-account sequence allocator as a state machine, and what holds of its runs.
 `TxStore` (txstore.dfy) is the class whose methods take these steps.
 */
module Allocator {
  import opened Wrappers

  /** A transaction sent to the network and not yet confirmed; `tx` is the identity of the caller's record. */
  datatype UnconfirmedTx = UnconfirmedTx(sequence: int, hash: string, maxLedger: nat, tx: string)

  datatype State = State(
    nextSequence: int,
    unconfirmed: map<int, UnconfirmedTx>,
    failed: set<int>,
    lastOnchain: int)

  datatype AddFailure = SequenceUsed(holder: string) | OldSequence | FutureSequence
  datatype ConfirmFailure = NoSuchSequence | UnexpectedHash

  datatype Op =
    | Resync(nextExpected: int)
    | Add(tx: UnconfirmedTx)
    | Confirm(sequence: int, hash: string, failed: bool)
    | Release(sequence: int)

  function Fresh(initial: int): State {
    State(initial, map[], {}, initial)
  }

  // ---- Single steps ----

  function AfterResync(st: State, n: int): State {
    st.(failed := (set f | f in st.failed && f >= n),
        nextSequence := if st.nextSequence < n then n else st.nextSequence,
        lastOnchain := n)
  }

  function AddError(st: State, sequence: int): Option<AddFailure> {
    if sequence in st.unconfirmed then Some(SequenceUsed(st.unconfirmed[sequence].hash))
    else if sequence in st.failed then None
    else if sequence < st.nextSequence then Some(OldSequence)
    else if sequence > st.nextSequence then Some(FutureSequence)
    else None
  }

  function AfterAdd(st: State, tx: UnconfirmedTx): State {
    if AddError(st, tx.sequence).Some? then st
    else if tx.sequence in st.failed then
      st.(failed := st.failed - {tx.sequence}, unconfirmed := st.unconfirmed[tx.sequence := tx])
    else
      st.(nextSequence := st.nextSequence + 1, unconfirmed := st.unconfirmed[tx.sequence := tx])
  }

  function ConfirmError(st: State, sequence: int, hash: string): Option<ConfirmFailure> {
    if sequence !in st.unconfirmed then Some(NoSuchSequence)
    else if st.unconfirmed[sequence].hash != hash then Some(UnexpectedHash)
    else None
  }

  function Recycle(st: State, sequence: int): State {
    if sequence >= st.lastOnchain then st.(failed := st.failed + {sequence}) else st
  }

  function AfterConfirm(st: State, sequence: int, hash: string, failed: bool): State {
    if ConfirmError(st, sequence, hash).Some? then st
    else
      var dropped := st.(unconfirmed := st.unconfirmed - {sequence});
      if failed then Recycle(dropped, sequence) else dropped
  }

  function AfterRelease(st: State, sequence: int): State {
    Recycle(st.(unconfirmed := st.unconfirmed - {sequence}), sequence)
  }

  function Apply(st: State, op: Op): State {
    match op
    case Resync(n) => AfterResync(st, n)
    case Add(tx) => AfterAdd(st, tx)
    case Confirm(sequence, hash, failed) => AfterConfirm(st, sequence, hash, failed)
    case Release(sequence) => AfterRelease(st, sequence)
  }

  // ---- Peeking at the next sequence ----

  /** `p` is the smallest of `nextSequence` and the recycled sequences. */
  ghost predicate IsPeek(st: State, p: int) {
    && (p == st.nextSequence || p in st.failed)
    && p <= st.nextSequence
    && forall f :: f in st.failed ==> p <= f
  }

  lemma {:induction false} LeastExists(bound: int, s: set<int>) returns (least: int)
    ensures least == bound || least in s
    ensures least <= bound && forall f :: f in s ==> least <= f
  {
    least := bound;
    if s != {} {
      var f := Pick(s);
      var m := LeastExists(bound, s - {f});
      least := if f < m then f else m;
      forall g | g in s ensures least <= g {
        assert g == f || g in s - {f};
      }
    }
  }

  lemma {:induction false} PeekExists(st: State)
    ensures exists p :: IsPeek(st, p)
  {
    var p := LeastExists(st.nextSequence, st.failed);
    assert IsPeek(st, p);
  }

  ghost function Peek(st: State): (p: int)
    ensures IsPeek(st, p)
  {
    PeekExists(st);
    var p :| IsPeek(st, p);
    p
  }

  // ---- Runs ----

  /**
   A run's state with its history: the sequences confirmed as used up, and the highest
   value the on-chain mark was ever given.
   */
  datatype Run = Run(store: State, initial: int, finalized: set<int>, mark: int)

  function Begin(initial: int): Run {
    Run(Fresh(initial), initial, {}, initial)
  }

  function Step(r: Run, op: Op): Run {
    r.(store := Apply(r.store, op),
       finalized :=
         if op.Confirm? && !op.failed && ConfirmError(r.store, op.sequence, op.hash).None?
         then r.finalized + {op.sequence} else r.finalized,
       mark := if op.Resync? && r.mark < op.nextExpected then op.nextExpected else r.mark)
  }

  function Exec(r: Run, ops: seq<Op>): Run
    decreases ops
  {
    if ops == [] then r else Exec(Step(r, ops[0]), ops[1..])
  }

  lemma {:induction false} ExecThree(r: Run, ops: seq<Op>)
    requires |ops| == 3
    ensures Exec(r, ops) == Step(Step(Step(r, ops[0]), ops[1]), ops[2])
  {
    var r1 := Step(r, ops[0]);
    var r2 := Step(r1, ops[1]);
    assert Exec(r, ops) == Exec(r1, ops[1..]) == Exec(r2, ops[1..][1..]);
    assert Exec(r2, ops[1..][1..]) == Exec(Step(r2, ops[2]), ops[1..][1..][1..]);
  }

  /** Every step of the run from `r` meets `ok` in the state it is taken in. */
  ghost predicate Along(r: Run, ops: seq<Op>, ok: (Run, Op) -> bool)
    decreases ops
  {
    ops == [] || (ok(r, ops[0]) && Along(Step(r, ops[0]), ops[1..], ok))
  }

  lemma {:induction false} ExecAppend(r: Run, ops: seq<Op>, more: seq<Op>)
    ensures Exec(r, ops + more) == Exec(Exec(r, ops), more)
    decreases ops
  {
    if ops == [] {
      assert ops + more == more;
    } else {
      assert (ops + more)[0] == ops[0] && (ops + more)[1..] == ops[1..] + more;
      ExecAppend(Step(r, ops[0]), ops[1..], more);
    }
  }

  // ---- Conservation: no discipline asked of the caller ----

  ghost predicate Accounted(r: Run, s: int) {
    s in r.store.unconfirmed || s in r.store.failed || s in r.finalized || s < r.mark
  }

  ghost predicate Conserved(r: Run) {
    && (forall s :: r.initial <= s < r.store.nextSequence ==> Accounted(r, s))
    && r.store.unconfirmed.Keys !! r.store.failed
    && (forall f :: f in r.store.failed ==> r.store.lastOnchain <= f)
    && r.store.lastOnchain <= r.store.nextSequence
    && r.store.lastOnchain <= r.mark
    && r.initial <= r.mark
    && (forall s :: s in r.store.unconfirmed ==> r.store.unconfirmed[s].sequence == s)
  }

  lemma {:induction false} ConservedStep(r: Run, op: Op)
    requires Conserved(r)
    ensures Conserved(Step(r, op))
  {
    var r' := Step(r, op);
    forall s | r'.initial <= s < r'.store.nextSequence ensures Accounted(r', s) {
      assert s < r.store.nextSequence ==> Accounted(r, s);
    }
  }

  lemma {:induction false} ConservedExec(r: Run, ops: seq<Op>)
    requires Conserved(r)
    ensures Conserved(Exec(r, ops))
    decreases ops
  {
    if ops != [] {
      ConservedStep(r, ops[0]);
      ConservedExec(Step(r, ops[0]), ops[1..]);
    }
  }

  /** No run leaks a sequence: each one handed out is in flight, recycled, used up or overtaken on chain. */
  lemma {:induction false} Conservation(initial: int, ops: seq<Op>)
    ensures Conserved(Exec(Begin(initial), ops))
  {
    ConservedExec(Begin(initial), ops);
  }

  /** The mark is the highest of the initial sequence and all resync values. */
  lemma {:induction false} MarkIsHighest(r: Run, ops: seq<Op>)
    ensures var m := Exec(r, ops).mark;
            && r.mark <= m && (m == r.mark || Resync(m) in ops)
            && forall op :: op in ops && op.Resync? ==> op.nextExpected <= m
    decreases ops
  {
    if ops != [] {
      MarkIsHighest(Step(r, ops[0]), ops[1..]);
    }
  }

  // ---- Refinement: the allocator hands out the least free sequence ----

  /** The specification: the first sequence not below the mark that is neither in flight nor used up. */
  ghost predicate IsLeastFree(r: Run, p: int) {
    && r.store.lastOnchain <= p
    && p !in r.store.unconfirmed && p !in r.finalized
    && forall s :: r.store.lastOnchain <= s < p ==> s in r.store.unconfirmed || s in r.finalized
  }

  ghost predicate Refines(r: Run) {
    IsLeastFree(r, Peek(r.store))
  }

  /**
   What the allocator needs of its caller: a resync may go back only over sequences that are
   in flight or used up, and `Release` may only name a sequence that is in flight, recycled,
   or already below the mark.
   */
  ghost predicate Sound(r: Run, op: Op) {
    match op
    case Resync(n) => forall s :: n <= s < r.store.lastOnchain ==> s in r.store.unconfirmed || s in r.finalized
    case Release(g) => g < r.store.lastOnchain || g in r.store.unconfirmed || g in r.store.failed
    case _ => true
  }

  ghost predicate Tight(r: Run) {
    var st := r.store;
    && st.lastOnchain <= st.nextSequence
    && (forall s :: s in st.unconfirmed ==> s < st.nextSequence)
    && (forall s :: s in st.failed ==> st.lastOnchain <= s < st.nextSequence)
    && (forall s :: s in r.finalized ==> s < st.nextSequence && s !in st.unconfirmed && s !in st.failed)
    && (forall s :: s in st.failed ==> s !in st.unconfirmed)
    && (forall s :: st.lastOnchain <= s < st.nextSequence ==>
          s in st.unconfirmed || s in st.failed || s in r.finalized)
  }

  lemma {:induction false} TightStep(r: Run, op: Op)
    requires Tight(r) && Sound(r, op)
    ensures Tight(Step(r, op))
  {
  }

  lemma {:induction false} TightRefines(r: Run)
    requires Tight(r)
    ensures Refines(r)
  {
  }

  lemma {:induction false} TightExec(r: Run, ops: seq<Op>)
    requires Tight(r) && Along(r, ops, Sound)
    ensures Tight(Exec(r, ops)) && Refines(Exec(r, ops))
    decreases ops
  {
    if ops == [] {
      TightRefines(r);
    } else {
      TightStep(r, ops[0]);
      TightExec(Step(r, ops[0]), ops[1..]);
    }
  }

  /** On every run of sound steps, `GetNextSequence` is the least free sequence: gaps are plugged first. */
  lemma {:induction false} AllocatorRefinement(initial: int, ops: seq<Op>)
    requires Along(Begin(initial), ops, Sound)
    ensures Refines(Exec(Begin(initial), ops))
    ensures Tight(Exec(Begin(initial), ops))
  {
    TightExec(Begin(initial), ops);
  }

  // ---- Soundness of a step is also necessary ----

  /** However a run goes on from `r` with sound steps, the allocator hands out the least free sequence. */
  ghost predicate SafeForever(r: Run) {
    forall ops :: Along(r, ops, Sound) ==> Refines(Exec(r, ops))
  }

  /** The state after releasing a `g` that is neither in flight, recycled, nor below the mark. */
  ghost predicate Stray(r: Run, g: int) {
    var st := r.store;
    && g in st.failed && st.lastOnchain <= st.nextSequence
    && (forall s :: s in st.unconfirmed ==> s < st.nextSequence && s !in st.failed)
    && (forall s :: s in st.failed ==> st.lastOnchain <= s && (s == g || s < st.nextSequence))
    && (g in r.finalized || st.nextSequence <= g)
  }

  function OpenBelow(r: Run, g: int): set<int> {
    set s | r.store.lastOnchain <= s < g && s !in r.store.unconfirmed
  }

  /** Using up what is peeked leads to `g` being peeked. */
  lemma {:induction false} DrainToStray(r: Run, g: int) returns (ops: seq<Op>)
    requires Stray(r, g)
    ensures forall op :: op in ops ==> op.Add?
    ensures Stray(Exec(r, ops), g) && Peek(Exec(r, ops).store) == g
    ensures Exec(r, ops).finalized == r.finalized
    decreases |OpenBelow(r, g)|
  {
    var p := Peek(r.store);
    if p == g {
      ops := [];
    } else {
      var add := Add(UnconfirmedTx(p, "", 0, ""));
      var r' := Step(r, add);
      assert OpenBelow(r', g) == OpenBelow(r, g) - {p} && p in OpenBelow(r, g);
      var rest := DrainToStray(r', g);
      ops := [add] + rest;
      assert ops[0] == add && ops[1..] == rest;
    }
  }

  lemma {:induction false} StrayIsUnsafe(r: Run, g: int)
    requires Stray(r, g)
    ensures !SafeForever(r)
  {
    var ops := DrainToStray(r, g);
    var r1 := Exec(r, ops);
    AddsAreAlong(r, ops, Sound);
    if g in r1.finalized {
      assert !Refines(r1);
    } else {
      var add := Add(UnconfirmedTx(g, "", 0, ""));
      AddsAreAlong(r, ops + [add], Sound);
      ExecAppend(r, ops, [add]);
      assert Exec(r1, [add]) == Step(r1, add);
      assert !Refines(Exec(r, ops + [add]));
    }
  }

  lemma {:induction false} AddsAreAlong(r: Run, ops: seq<Op>, ok: (Run, Op) -> bool)
    requires forall op :: op in ops ==> op.Add?
    requires forall q, tx :: ok(q, Add(tx))
    ensures Along(r, ops, ok)
    decreases ops
  {
    if ops != [] {
      assert ops[0] in ops && ok(r, Add(ops[0].tx));
      AddsAreAlong(Step(r, ops[0]), ops[1..], ok);
    }
  }

  /**
   The discipline is exact: after any run of sound steps, a further step keeps the allocator
   correct for every sound continuation if and only if that step is sound.
   */
  lemma {:induction false} SoundStepsAreExactlyTheSafeOnes(initial: int, ops: seq<Op>, op: Op)
    requires Along(Begin(initial), ops, Sound)
    ensures var r := Exec(Begin(initial), ops);
            SafeForever(Step(r, op)) <==> Sound(r, op)
  {
    AllocatorRefinement(initial, ops);
    var r := Exec(Begin(initial), ops);
    var r' := Step(r, op);
    if Sound(r, op) {
      TightStep(r, op);
      forall more | Along(r', more, Sound) ensures Refines(Exec(r', more)) {
        TightExec(r', more);
      }
    } else if op.Release? {
      assert Stray(r', op.sequence);
      StrayIsUnsafe(r', op.sequence);
    } else {
      assert Along(r', [], Sound) && Exec(r', []) == r';
      assert !Refines(r');
    }
  }

  // ---- Liveness: what is peeked can be added ----

  /** The wedge: the sequence the allocator would open next is itself in flight. */
  ghost predicate Wedged(st: State) {
    st.nextSequence in st.unconfirmed
  }

  /** After any run whatever, adding what was just peeked fails exactly in a wedge with nothing recycled below it. */
  lemma {:induction false} PeekThenAddFailsExactlyWhenWedged(initial: int, ops: seq<Op>)
    ensures var st := Exec(Begin(initial), ops).store;
            AddError(st, Peek(st)).Some? <==> Peek(st) == st.nextSequence && Wedged(st)
  {
    Conservation(initial, ops);
  }

  ghost predicate BelowNext(r: Run, op: Op) {
    op.Release? ==> op.sequence < r.store.nextSequence
  }

  ghost predicate Opened(r: Run) {
    var st := r.store;
    && Conserved(r)
    && (forall s :: s in st.unconfirmed || s in st.failed || s in r.finalized ==> s < st.nextSequence)
  }

  lemma {:induction false} OpenedStep(r: Run, op: Op)
    requires Opened(r) && BelowNext(r, op)
    ensures Opened(Step(r, op))
  {
    ConservedStep(r, op);
  }

  lemma {:induction false} OpenedExec(r: Run, ops: seq<Op>)
    requires Opened(r) && Along(r, ops, BelowNext)
    ensures Opened(Exec(r, ops))
    decreases ops
  {
    if ops != [] {
      OpenedStep(r, ops[0]);
      OpenedExec(Step(r, ops[0]), ops[1..]);
    }
  }

  lemma {:induction false} ReleasingUnopenedMakesStray(r: Run, g: int)
    requires Opened(r) && r.store.nextSequence <= g
    ensures Stray(Step(r, Release(g)), g)
  {
    assert Conserved(r);
  }

  /** Adding the stray itself wedges the allocator. */
  lemma {:induction false} StrayLeadsToWedge(r: Run, g: int)
    requires Stray(r, g) && g !in r.finalized
    ensures !NeverWedges(r)
  {
    var drain := DrainToStray(r, g);
    var add := Add(UnconfirmedTx(g, "", 0, ""));
    AddsAreAlong(r, drain + [add], BelowNext);
    ExecAppend(r, drain, [add]);
    assert Exec(Exec(r, drain), [add]) == Step(Exec(r, drain), add);
    assert Wedged(Exec(r, drain + [add]).store);
  }

  ghost predicate NeverWedges(r: Run) {
    forall ops :: Along(r, ops, BelowNext) ==> !Wedged(Exec(r, ops).store)
  }

  /**
   Releasing only sequences below `nextSequence` is exactly what keeps every peek addable:
   one release at or above it lets a later peek-and-add wedge the allocator.
   */
  lemma {:induction false} WedgeComesExactlyFromReleasingUnopened(initial: int, ops: seq<Op>, op: Op)
    requires Along(Begin(initial), ops, BelowNext)
    ensures var r := Exec(Begin(initial), ops);
            !Wedged(r.store) && (NeverWedges(Step(r, op)) <==> BelowNext(r, op))
  {
    OpenedExec(Begin(initial), ops);
    var r := Exec(Begin(initial), ops);
    var r' := Step(r, op);
    if BelowNext(r, op) {
      OpenedStep(r, op);
      forall more | Along(r', more, BelowNext) ensures !Wedged(Exec(r', more).store) {
        OpenedExec(r', more);
      }
    } else {
      ReleasingUnopenedMakesStray(r, op.sequence);
      StrayLeadsToWedge(r', op.sequence);
    }
  }

  /**
   The documented use of `Release` after a failed broadcast is such a release: when nothing is
   recycled the peeked sequence is `nextSequence`. A transaction `tx` added after it wedges the
   allocator; the next peek-and-add fails; and releasing that peek in turn erases `tx` from the
   in-flight set although it was never confirmed.
   */
  lemma {:induction false} ReleasingAFreshPeekLosesTheNextTransaction(initial: int, ops: seq<Op>, tx: UnconfirmedTx)
    requires Along(Begin(initial), ops, BelowNext)
    requires var st := Exec(Begin(initial), ops).store; st.failed == {} && tx.sequence == st.nextSequence
    ensures var st := Exec(Begin(initial), ops).store;
            var g := Peek(st);
            var accepted := AfterAdd(AfterRelease(st, g), tx);
            && g == tx.sequence && Peek(AfterRelease(st, g)) == g
            && accepted.unconfirmed == st.unconfirmed[g := tx]
            && Peek(accepted) == g && AddError(accepted, g) == Some(SequenceUsed(tx.hash))
            && AfterRelease(accepted, g).unconfirmed == st.unconfirmed
            && Peek(AfterRelease(accepted, g)) == g
  {
    OpenedExec(Begin(initial), ops);
    var st := Exec(Begin(initial), ops).store;
    var released := AfterRelease(st, st.nextSequence);
    assert st.unconfirmed - {st.nextSequence} == st.unconfirmed;
    assert released.failed == {st.nextSequence};
    var accepted := AfterAdd(released, tx);
    assert accepted.failed == {};
    assert accepted.unconfirmed - {tx.sequence} == st.unconfirmed;
  }

  // ---- Adding and confirming ----

  /**
   After any run, an accepted add can be confirmed under its own hash and under no other, and confirming it
   takes back exactly what the add put in flight; a failed transaction's sequence is recycled unless it is
   below the mark.
   */
  lemma {:induction false} AcceptedAddConfirms(initial: int, ops: seq<Op>, tx: UnconfirmedTx, hash: string, failed: bool)
    requires AddError(Exec(Begin(initial), ops).store, tx.sequence).None?
    ensures var st := Exec(Begin(initial), ops).store;
            var added := AfterAdd(st, tx);
            var done := AfterConfirm(added, tx.sequence, hash, failed);
            && added.unconfirmed == st.unconfirmed[tx.sequence := tx]
            && ConfirmError(added, tx.sequence, hash) == (if hash == tx.hash then None else Some(UnexpectedHash))
            && (hash != tx.hash ==> done == added)
            && (hash == tx.hash ==>
                  && done.unconfirmed == st.unconfirmed
                  && done.failed ==
                     st.failed - {tx.sequence} + (if failed && tx.sequence >= st.lastOnchain then {tx.sequence} else {})
                  && done.lastOnchain == st.lastOnchain
                  && done.nextSequence == st.nextSequence + (if tx.sequence in st.failed then 0 else 1))
  {
    var st := Exec(Begin(initial), ops).store;
    var added := AfterAdd(st, tx);
    assert added.unconfirmed - {tx.sequence} == st.unconfirmed;
  }

  /** And a sequence whose failed transaction was recycled can be added again, at once. */
  lemma {:induction false} RecycledCanBeAddedAgain(initial: int, ops: seq<Op>, tx: UnconfirmedTx)
    requires var st := Exec(Begin(initial), ops).store;
             AddError(st, tx.sequence).None? && tx.sequence >= st.lastOnchain
    ensures var st := Exec(Begin(initial), ops).store;
            var done := AfterConfirm(AfterAdd(st, tx), tx.sequence, tx.hash, true);
            tx.sequence in done.failed && AddError(done, tx.sequence).None?
  {
    AcceptedAddConfirms(initial, ops, tx, tx.hash, true);
  }

  // ---- A used-up sequence stays used up ----

  /** No used-up sequence is in flight or about to be handed out again as a recycled one. */
  ghost predicate Apart(r: Run) {
    forall s :: s in r.finalized ==> s !in r.store.unconfirmed && s !in r.store.failed
  }

  ghost predicate Settled(r: Run) {
    Opened(r) && Apart(r)
  }

  /** A release only names a sequence that was opened and is not used up, unless it is below the mark. */
  ghost predicate Harmless(r: Run, op: Op) {
    op.Release? ==>
      op.sequence < r.store.nextSequence && (op.sequence < r.store.lastOnchain || op.sequence !in r.finalized)
  }

  lemma {:induction false} SettledStep(r: Run, op: Op)
    requires Settled(r) && Harmless(r, op)
    ensures Settled(Step(r, op)) && r.finalized <= Step(r, op).finalized
  {
    OpenedStep(r, op);
  }

  lemma {:induction false} SettledExec(r: Run, ops: seq<Op>)
    requires Settled(r) && Along(r, ops, Harmless)
    ensures Settled(Exec(r, ops)) && r.finalized <= Exec(r, ops).finalized
    decreases ops
  {
    if ops != [] {
      SettledStep(r, ops[0]);
      SettledExec(Step(r, ops[0]), ops[1..]);
    }
  }

  /** However a run goes on from `r` with harmless steps, used-up sequences stay apart from the others. */
  ghost predicate NeverRevives(r: Run) {
    forall ops :: Along(r, ops, Harmless) ==> Apart(Exec(r, ops))
  }

  /**
   From a released sequence that was never opened: it is handed out, used up, and, being the next one
   to open, handed out once more.
   */
  lemma {:induction false} UnopenedReleaseRevives(r: Run, g: int)
    requires Stray(r, g) && g !in r.finalized
    ensures !NeverRevives(r)
  {
    var drain := DrainToStray(r, g);
    var r1 := Exec(r, drain);
    assert r1.store.nextSequence == g;
    var tx := UnconfirmedTx(g, "", 0, "");
    var again := [Add(tx), Confirm(g, "", false), Add(tx)];
    var r2 := Step(r1, again[0]);
    assert r2.store == r1.store.(failed := r1.store.failed - {g}, unconfirmed := r1.store.unconfirmed[g := tx]);
    var r3 := Step(r2, again[1]);
    assert g in r3.finalized && g !in r3.store.unconfirmed && r3.store.nextSequence == g;
    var r4 := Step(r3, again[2]);
    assert g in r4.finalized && g in r4.store.unconfirmed;
    ExecThree(r1, again);
    NoReleaseIsHarmless(r, drain + again);
    ExecAppend(r, drain, again);
    assert !Apart(Exec(r, drain + again));
  }

  lemma {:induction false} NoReleaseIsHarmless(r: Run, ops: seq<Op>)
    requires forall op :: op in ops ==> !op.Release?
    ensures Along(r, ops, Harmless)
    decreases ops
  {
    if ops != [] {
      assert ops[0] in ops;
      NoReleaseIsHarmless(Step(r, ops[0]), ops[1..]);
    }
  }

  /**
   This discipline is exact too: after any run of harmless steps, a further step keeps used-up sequences
   used up on every harmless continuation if and only if it is harmless.
   */
  lemma {:induction false} HarmlessStepsAreExactlyTheKeepingOnes(initial: int, ops: seq<Op>, op: Op)
    requires Along(Begin(initial), ops, Harmless)
    ensures var r := Exec(Begin(initial), ops);
            Apart(r) && (NeverRevives(Step(r, op)) <==> Harmless(r, op))
  {
    SettledExec(Begin(initial), ops);
    var r := Exec(Begin(initial), ops);
    var r' := Step(r, op);
    if Harmless(r, op) {
      SettledStep(r, op);
      forall more | Along(r', more, Harmless) ensures Apart(Exec(r', more)) {
        SettledExec(r', more);
      }
    } else if op.sequence < r.store.nextSequence {
      assert Along(r', [], Harmless) && Exec(r', []) == r';
      assert !Apart(r');
    } else {
      ReleasingUnopenedMakesStray(r, op.sequence);
      UnopenedReleaseRevives(r', op.sequence);
    }
  }

  // ---- Interleaved workers ----

  /** Workers peek, and later add or release whatever they once peeked; other steps interleave freely. */
  datatype Event =
    | Peeks(worker: nat)
    | Adds(worker: nat, hash: string, maxLedger: nat, tx: string)
    | Releases(worker: nat)
    | Confirms(sequence: int, hash: string, failed: bool)
    | Resyncs(nextExpected: int)

  /** The store step an event takes, given what each worker has peeked so far. */
  function StepOf(peeked: map<nat, int>, e: Event): Option<Op> {
    match e
    case Peeks(_) => None
    case Adds(w, hash, maxLedger, tx) =>
      if w in peeked then Some(Add(UnconfirmedTx(peeked[w], hash, maxLedger, tx))) else None
    case Releases(w) => if w in peeked then Some(Release(peeked[w])) else None
    case Confirms(s, hash, failed) => Some(Confirm(s, hash, failed))
    case Resyncs(n) => Some(Resync(n))
  }

  /** The store steps an interleaving takes. */
  ghost function Steps(r: Run, peeked: map<nat, int>, events: seq<Event>): seq<Op>
    decreases events
  {
    if events == [] then []
    else if events[0].Peeks? then Steps(r, peeked[events[0].worker := Peek(r.store)], events[1..])
    else
      var op := StepOf(peeked, events[0]);
      if op.None? then Steps(r, peeked, events[1..])
      else [op.value] + Steps(Step(r, op.value), peeked, events[1..])
  }

  /**
   What a stale peek can name: never a sequence above the next one to open. So a worker's add is never
   refused as too early, and its release is of an opened sequence unless it is still the next one.
   */
  ghost predicate Foreseen(r: Run, op: Op) {
    && (op.Add? ==> AddError(r.store, op.tx.sequence) != Some(FutureSequence))
    && (op.Release? ==> op.sequence <= r.store.nextSequence)
  }

  lemma {:induction false} StepsAreForeseen(r: Run, peeked: map<nat, int>, events: seq<Event>)
    requires forall w :: w in peeked ==> peeked[w] <= r.store.nextSequence
    ensures Along(r, Steps(r, peeked, events), Foreseen)
    decreases events
  {
    if events != [] {
      var op := StepOf(peeked, events[0]);
      if events[0].Peeks? {
        StepsAreForeseen(r, peeked[events[0].worker := Peek(r.store)], events[1..]);
      } else if op.None? {
        StepsAreForeseen(r, peeked, events[1..]);
      } else {
        var rest := Steps(Step(r, op.value), peeked, events[1..]);
        assert ([op.value] + rest)[1..] == rest;
        StepsAreForeseen(Step(r, op.value), peeked, events[1..]);
      }
    }
  }

  /** An entry leaves the in-flight set only by its own confirmation or a release of it, and is never replaced. */
  ghost predicate KeepsInFlight(r: Run, op: Op) {
    forall s :: s in r.store.unconfirmed ==>
      var after := Step(r, op).store.unconfirmed;
      if s in after then after[s] == r.store.unconfirmed[s]
      else (op.Confirm? && op.sequence == s && op.hash == r.store.unconfirmed[s].hash) || op == Release(s)
  }

  lemma {:induction false} EveryStepKeepsInFlight(r: Run, ops: seq<Op>)
    ensures Along(r, ops, KeepsInFlight)
    decreases ops
  {
    if ops != [] {
      EveryStepKeepsInFlight(Step(r, ops[0]), ops[1..]);
    }
  }

  lemma {:induction false} AlongPrefix(r: Run, ops: seq<Op>, k: nat, ok: (Run, Op) -> bool)
    requires k <= |ops| && Along(r, ops, ok)
    ensures Along(r, ops[..k], ok) && Along(Exec(r, ops[..k]), ops[k..], ok)
    decreases ops
  {
    if k == 0 {
      assert ops[0..] == ops;
    } else {
      assert ops[..k][1..] == ops[1..][..k - 1] && ops[k..] == ops[1..][k - 1..];
      AlongPrefix(Step(r, ops[0]), ops[1..], k - 1, ok);
    }
  }

  /** On a harmless run, what is used up after `k` steps still is at the end, and apart from the others. */
  lemma {:induction false} UsedUpStaysUsedUp(initial: int, ops: seq<Op>, k: nat)
    requires k <= |ops| && Along(Begin(initial), ops, Harmless)
    ensures Exec(Begin(initial), ops[..k]).finalized <= Exec(Begin(initial), ops).finalized
    ensures Apart(Exec(Begin(initial), ops))
  {
    var r, front, back := Begin(initial), ops[..k], ops[k..];
    assert front + back == ops;
    AlongPrefix(r, ops, k, Harmless);
    SettledExec(r, front);
    SettledExec(Exec(r, front), back);
    ExecAppend(r, front, back);
  }

  /**
   Whatever workers do with stale peeks: no in-flight entry is overwritten or lost, and as long as their
   releases are harmless a used-up sequence stays used up and never becomes in flight or recycled again.
   */
  lemma {:induction false} InterleavingSafety(initial: int, events: seq<Event>, k: nat)
    requires k <= |Steps(Begin(initial), map[], events)|
    ensures var ops := Steps(Begin(initial), map[], events);
            var early, late := Exec(Begin(initial), ops[..k]), Exec(Begin(initial), ops);
            && Along(Begin(initial), ops, KeepsInFlight) && Along(Begin(initial), ops, Foreseen)
            && (Along(Begin(initial), ops, Harmless) ==> early.finalized <= late.finalized && Apart(late))
  {
    var r, ops := Begin(initial), Steps(Begin(initial), map[], events);
    StepsAreForeseen(r, map[], events);
    EveryStepKeepsInFlight(r, ops);
    if Along(r, ops, Harmless) {
      UsedUpStaysUsedUp(initial, ops, k);
    }
  }
}
