/** The `TxStore` and `AccountStore` objects of the transaction manager, proved to take the allocator's steps. */
module TxStore {
  import opened Wrappers
  import opened Allocator
  import opened Sorting

  /** Sequence numbers and in-flight transactions of one account. */
  class TxStore {
    var nextSequence: int
    var unconfirmedSequences: map<int, UnconfirmedTx>
    var failedSequences: set<int>
    var lastOnchainSequence: int
    ghost var initial: int
    ghost var trace: seq<Op>

    ghost function View(): State
      reads this
    {
      State(nextSequence, unconfirmedSequences, failedSequences, lastOnchainSequence)
    }

    /** The fields are those of the allocator after the operations called so far. */
    ghost predicate Valid()
      reads this
    {
      Exec(Begin(initial), trace).store == View()
    }

    constructor (initialSequence: int)
      ensures Valid() && initial == initialSequence && trace == []
      ensures View() == Fresh(initialSequence)
      ensures nextSequence == lastOnchainSequence == initialSequence
      ensures unconfirmedSequences == map[] && failedSequences == {}
    {
      nextSequence := initialSequence;
      unconfirmedSequences := map[];
      failedSequences := {};
      lastOnchainSequence := initialSequence;
      initial, trace := initialSequence, [];
    }

    ghost method Record(op: Op)
      requires View() == Apply(Exec(Begin(initial), trace).store, op)
      modifies this`trace
      ensures Valid() && trace == old(trace) + [op]
    {
      ExecAppend(Begin(initial), trace, [op]);
      var r := Exec(Begin(initial), trace);
      assert Exec(r, [op]) == Step(r, op);
      trace := trace + [op];
    }

    method ResyncNonce(nextExpectedSequence: int)
      requires Valid()
      modifies this
      ensures Valid() && initial == old(initial) && trace == old(trace) + [Resync(nextExpectedSequence)]
      ensures View() == AfterResync(old(View()), nextExpectedSequence)
      ensures lastOnchainSequence == nextExpectedSequence && unconfirmedSequences == old(unconfirmedSequences)
      ensures nextSequence >= nextExpectedSequence
      ensures nextSequence == old(nextSequence) || old(nextSequence) < nextSequence == nextExpectedSequence
      ensures forall f :: f in failedSequences <==> f in old(failedSequences) && f >= nextExpectedSequence
    {
      var badFailedSeqs := [];
      var rest := failedSequences;
      while rest != {}
        modifies {}
        invariant rest <= failedSequences
        invariant forall f :: f in badFailedSeqs <==> f in failedSequences - rest && f < nextExpectedSequence
      {
        ghost var some := Pick(rest);
        var failedSeq :| failedSeq in rest;
        rest := rest - {failedSeq};
        if failedSeq >= nextExpectedSequence {
          continue;
        }
        badFailedSeqs := badFailedSeqs + [failedSeq];
      }
      for i := 0 to |badFailedSeqs|
        invariant failedSequences == old(failedSequences) - (set f | f in badFailedSeqs[..i])
        invariant nextSequence == old(nextSequence) && lastOnchainSequence == old(lastOnchainSequence)
        invariant unconfirmedSequences == old(unconfirmedSequences)
        invariant initial == old(initial) && trace == old(trace)
      {
        assert badFailedSeqs[..i + 1] == badFailedSeqs[..i] + [badFailedSeqs[i]];
        failedSequences := failedSequences - {badFailedSeqs[i]};
      }
      assert badFailedSeqs[..|badFailedSeqs|] == badFailedSeqs;
      if nextSequence < nextExpectedSequence {
        nextSequence := nextExpectedSequence;
      }
      lastOnchainSequence := nextExpectedSequence;
      Record(Resync(nextExpectedSequence));
    }

    method GetNextSequence() returns (next: int)
      requires Valid()
      ensures next == Peek(View())
      ensures next == nextSequence || next in failedSequences
      ensures next <= nextSequence && forall f :: f in failedSequences ==> next <= f
    {
      next := nextSequence;
      var rest := failedSequences;
      while rest != {}
        invariant rest <= failedSequences
        invariant next == nextSequence || next in failedSequences
        invariant next <= nextSequence && forall f :: f in failedSequences && f !in rest ==> next <= f
      {
        ghost var some := Pick(rest);
        var f :| f in rest;
        rest := rest - {f};
        if f < next {
          next := f;
        }
      }
      assert IsPeek(View(), next);
    }

    method AddUnconfirmed(sequence: int, hash: string, maxLedger: nat, tx: string) returns (err: Option<AddFailure>)
      requires Valid()
      modifies this
      ensures Valid() && initial == old(initial)
      ensures trace == old(trace) + [Add(UnconfirmedTx(sequence, hash, maxLedger, tx))]
      ensures err == AddError(old(View()), sequence)
      ensures View() == AfterAdd(old(View()), UnconfirmedTx(sequence, hash, maxLedger, tx))
      ensures err.Some? ==> View() == old(View())
      // accepted exactly for a recycled sequence or the next one, unless it is in flight
      ensures err.None? <==>
                sequence !in old(unconfirmedSequences) && (sequence in old(failedSequences) || sequence == old(nextSequence))
      ensures err.None? ==>
                && unconfirmedSequences ==
                   old(unconfirmedSequences)[sequence := UnconfirmedTx(sequence, hash, maxLedger, tx)]
                && failedSequences == old(failedSequences) - {sequence}
                && nextSequence == old(nextSequence) + (if sequence in old(failedSequences) then 0 else 1)
                && lastOnchainSequence == old(lastOnchainSequence)
      // and refused for the reason that applies
      ensures sequence in old(unconfirmedSequences) ==> err == Some(SequenceUsed(old(unconfirmedSequences)[sequence].hash))
      ensures sequence !in old(unconfirmedSequences) && err.Some? ==>
                err.value == if sequence < old(nextSequence) then OldSequence else FutureSequence
    {
      ghost var op := Add(UnconfirmedTx(sequence, hash, maxLedger, tx));
      if sequence in unconfirmedSequences {
        Record(op);
        return Some(SequenceUsed(unconfirmedSequences[sequence].hash));
      }
      if sequence !in failedSequences {
        if sequence < nextSequence {
          Record(op);
          return Some(OldSequence);
        }
        if sequence > nextSequence {
          Record(op);
          return Some(FutureSequence);
        }
        nextSequence := nextSequence + 1;
      } else {
        failedSequences := failedSequences - {sequence};
      }
      unconfirmedSequences := unconfirmedSequences[sequence := UnconfirmedTx(sequence, hash, maxLedger, tx)];
      Record(op);
      return None;
    }

    method Confirm(sequence: int, hash: string, failed: bool) returns (err: Option<ConfirmFailure>)
      requires Valid()
      modifies this
      ensures Valid() && initial == old(initial)
      ensures trace == old(trace) + [Op.Confirm(sequence, hash, failed)]
      ensures err == ConfirmError(old(View()), sequence, hash)
      ensures View() == AfterConfirm(old(View()), sequence, hash, failed)
      ensures err.Some? ==> View() == old(View())
      // accepted exactly for an in-flight sequence under its own hash
      ensures err.None? <==>
                sequence in old(unconfirmedSequences) && old(unconfirmedSequences)[sequence].hash == hash
      ensures err.None? ==>
                && unconfirmedSequences == old(unconfirmedSequences) - {sequence}
                && failedSequences ==
                   old(failedSequences) + (if failed && sequence >= old(lastOnchainSequence) then {sequence} else {})
                && nextSequence == old(nextSequence) && lastOnchainSequence == old(lastOnchainSequence)
      ensures err.Some? ==>
                err.value == if sequence in old(unconfirmedSequences) then UnexpectedHash else NoSuchSequence
    {
      ghost var op := Op.Confirm(sequence, hash, failed);
      if sequence !in unconfirmedSequences {
        Record(op);
        return Some(NoSuchSequence);
      }
      var unconfirmed := unconfirmedSequences[sequence];
      if unconfirmed.hash != hash {
        Record(op);
        return Some(UnexpectedHash);
      }
      unconfirmedSequences := unconfirmedSequences - {sequence};
      if failed && sequence >= lastOnchainSequence {
        failedSequences := failedSequences + {sequence};
      }
      Record(op);
      return None;
    }

    method Release(sequence: int)
      requires Valid()
      modifies this
      ensures Valid() && initial == old(initial)
      ensures trace == old(trace) + [Op.Release(sequence)]
      ensures View() == AfterRelease(old(View()), sequence)
      ensures unconfirmedSequences == old(unconfirmedSequences) - {sequence}
      ensures failedSequences ==
              old(failedSequences) + (if sequence >= old(lastOnchainSequence) then {sequence} else {})
      ensures nextSequence == old(nextSequence) && lastOnchainSequence == old(lastOnchainSequence)
    {
      unconfirmedSequences := unconfirmedSequences - {sequence};
      if sequence >= lastOnchainSequence {
        failedSequences := failedSequences + {sequence};
      }
      Record(Op.Release(sequence));
    }

    /** The in-flight transactions, each once, in order of sequence. */
    method GetUnconfirmed() returns (result: seq<UnconfirmedTx>)
      requires Valid()
      ensures IsSnapshot(unconfirmedSequences, result)
      ensures forall i, j :: 0 <= i < j < |result| ==> result[i].sequence < result[j].sequence
      ensures forall u :: u in result <==> u.sequence in unconfirmedSequences && unconfirmedSequences[u.sequence] == u
    {
      Conservation(initial, trace);
      result := [];
      var rest := unconfirmedSequences.Keys;
      while rest != {}
        invariant rest <= unconfirmedSequences.Keys
        invariant forall u :: u in result ==>
                    u.sequence in unconfirmedSequences.Keys - rest && unconfirmedSequences[u.sequence] == u
        invariant forall s :: s in unconfirmedSequences.Keys - rest ==> unconfirmedSequences[s] in result
        invariant NoTies(result, BySequence)
      {
        ghost var some := Pick(rest);
        var s :| s in rest;
        rest := rest - {s};
        result := result + [unconfirmedSequences[s]];
      }
      SortIsStrict(result, BySequence);
      result := Sort(result, BySequence);
    }

    /** How many transactions every snapshot of this state lists. */
    method InflightCount() returns (n: nat)
      requires Valid()
      ensures n == |unconfirmedSequences|
      ensures forall snapshot :: IsSnapshot(unconfirmedSequences, snapshot) ==> |snapshot| == n
    {
      n := |unconfirmedSequences|;
      Conservation(initial, trace);
      forall snapshot | IsSnapshot(unconfirmedSequences, snapshot) ensures |snapshot| == n {
        SnapshotLength(unconfirmedSequences, snapshot);
      }
    }
  }

  predicate BySequence(a: UnconfirmedTx, b: UnconfirmedTx) {
    a.sequence <= b.sequence
  }

  ghost predicate IsSnapshot(m: map<int, UnconfirmedTx>, result: seq<UnconfirmedTx>) {
    && (forall i, j :: 0 <= i < j < |result| ==> result[i].sequence < result[j].sequence)
    && (forall u :: u in result ==> u.sequence in m && m[u.sequence] == u)
    && (forall s :: s in m ==> m[s] in result)
  }

  /** The snapshot does not depend on the order in which the in-flight map was walked. */
  lemma {:induction false} SnapshotIsUnique(m: map<int, UnconfirmedTx>, a: seq<UnconfirmedTx>, b: seq<UnconfirmedTx>)
    requires IsSnapshot(m, a) && IsSnapshot(m, b)
    ensures a == b
  {
    StrictListIsUnique(a, b, BySequence);
  }

  function SequencesOf(txs: seq<UnconfirmedTx>): set<int> {
    set u | u in txs :: u.sequence
  }

  lemma {:induction false} AscendingCount(txs: seq<UnconfirmedTx>)
    requires forall i, j :: 0 <= i < j < |txs| ==> txs[i].sequence < txs[j].sequence
    ensures |SequencesOf(txs)| == |txs|
  {
    if txs != [] {
      var front, last := txs[..|txs| - 1], txs[|txs| - 1];
      AscendingCount(front);
      assert txs == front + [last];
      assert SequencesOf(txs) == SequencesOf(front) + {last.sequence};
      assert last.sequence !in SequencesOf(front);
    }
  }

  /** A snapshot is as long as the in-flight map is large. */
  lemma {:induction false} SnapshotLength(m: map<int, UnconfirmedTx>, snapshot: seq<UnconfirmedTx>)
    requires IsSnapshot(m, snapshot) && forall s :: s in m ==> m[s].sequence == s
    ensures |snapshot| == |m|
  {
    AscendingCount(snapshot);
    forall s ensures s in SequencesOf(snapshot) <==> s in m.Keys {
      assert s in m ==> m[s] in snapshot;
    }
    assert SequencesOf(snapshot) == m.Keys && |m| == |m.Keys|;
  }

  /** One store per account address. */
  class AccountStore {
    var store: map<string, TxStore>

    ghost predicate Valid()
      reads this, store.Values
    {
      && (forall a :: a in store ==> store[a].Valid())
      && (forall a, b :: a in store && b in store && a != b ==> store[a] != store[b])
    }

    constructor ()
      ensures Valid() && store == map[]
    {
      store := map[];
    }

    method CreateTxStore(accountAddress: string, initialSequence: int) returns (created: Option<TxStore>)
      requires Valid()
      modifies this
      ensures Valid()
      ensures created.None? <==> accountAddress in old(store)
      ensures created.None? ==> store == old(store)
      ensures created.Some? ==>
                && fresh(created.value) && store == old(store)[accountAddress := created.value]
                && created.value.View() == Fresh(initialSequence) && created.value.trace == []
                && created.value.nextSequence == created.value.lastOnchainSequence == initialSequence
                && created.value.unconfirmedSequences == map[] && created.value.failedSequences == {}
    {
      if accountAddress in store {
        return None;
      }
      var txStore := new TxStore(initialSequence);
      store := store[accountAddress := txStore];
      return Some(txStore);
    }

    method GetTxStore(accountAddress: string) returns (found: Option<TxStore>)
      requires Valid()
      ensures found == if accountAddress in store then Some(store[accountAddress]) else None
      ensures found.Some? ==>
                && found.value.Valid()
                && forall other :: other in store && other != accountAddress ==> store[other] != found.value
    {
      if accountAddress !in store {
        return None;
      }
      return Some(store[accountAddress]);
    }
  }
}
