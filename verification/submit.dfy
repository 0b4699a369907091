/** Handling the answer to a submitted transaction, on top of the sequence store. */
module Submit {
  import opened Wrappers
  import opened Allocator
  import T = TxStore

  type NonEmpty = s: string | s != "" witness "?"

  datatype ResultCode = TxBadSeq | TxInsufficientFee | TxInternalError | OtherCode(name: NonEmpty)

  /** The error result attached to a rejection, as far as it can be decoded. */
  datatype ErrorResult = Empty | Undecodable | Decodes(code: ResultCode)

  datatype Status = Pending | Duplicate | TryAgainLater | Error | UnknownStatus(text: string)

  datatype Response = Response(status: Status, hash: string, error: ErrorResult)

  /** The caller's transaction record. */
  class StellarTx {
    const id: string
    var txHash: string
    var resultXdr: string
    var resultMetaXdr: string
    var resultCode: string

    constructor (id: string) {
      this.id := id;
      txHash, resultXdr, resultMetaXdr, resultCode := "", "", "", "";
    }
  }

  function ParseSubmitErrorResult(e: ErrorResult): Option<ResultCode> {
    if e.Decodes? then Some(e.code) else None
  }

  function ClassifySubmitErrorCode(code: ResultCode): (bool, string) {
    match code
    case TxBadSeq => (false, "bad_seq")
    case TxInsufficientFee => (false, "insufficient_fee")
    case TxInternalError => (false, "internal_error")
    case OtherCode(name) => (true, name)
  }

  /** What the caller is told. */
  datatype Verdict = Verdict(accepted: bool, fatal: bool, reason: string)

  /** The network took the transaction. */
  predicate Taken(resp: Response) {
    resp.status == Pending || resp.status == Duplicate
  }

  /** The verdict on a response for `sequence` when the store is in state `st`. */
  function Judge(st: State, resp: Response, sequence: int): Verdict {
    if Taken(resp) then
      if resp.hash == "" then Verdict(false, true, "no_hash")
      else if AddError(st, sequence).Some? then Verdict(false, true, "store_add")
      else Verdict(true, false, "")
    else
      match resp.status
      case TryAgainLater => Verdict(false, false, "try_again_later")
      case Error =>
        var code := ParseSubmitErrorResult(resp.error);
        if code.None? then Verdict(false, true, "submit_error_undecoded")
        else var (fatal, reason) := ClassifySubmitErrorCode(code.value); Verdict(false, fatal, reason)
      case _ => Verdict(false, true, "unknown_submit")
  }

  method HandleSendResult(tx: StellarTx?, resp: Response, sequence: int, txStore: T.TxStore?, maxLedger: nat)
    returns (v: Verdict)
    requires txStore != null ==> txStore.Valid()
    modifies tx, txStore
    ensures txStore != null ==> txStore.Valid()
    ensures tx == null ==> v == Verdict(false, true, "nil_tx")
    ensures tx != null && txStore == null ==> v == Verdict(false, true, "nil_tx_store")
    ensures tx != null && txStore != null ==> v == Judge(old(txStore.View()), resp, sequence)
    ensures txStore != null ==>
              txStore.View() ==
              if v.accepted then AfterAdd(old(txStore.View()), UnconfirmedTx(sequence, resp.hash, maxLedger, tx.id))
              else old(txStore.View())
    // accepted: exactly this entry is in flight on top of the others; otherwise the store is as it was
    ensures v.accepted ==>
              && tx != null && txStore != null && sequence !in old(txStore.unconfirmedSequences)
              && txStore.unconfirmedSequences ==
                 old(txStore.unconfirmedSequences)[sequence := UnconfirmedTx(sequence, resp.hash, maxLedger, tx.id)]
              && txStore.failedSequences == old(txStore.failedSequences) - {sequence}
              && txStore.lastOnchainSequence == old(txStore.lastOnchainSequence)
              && txStore.nextSequence ==
                 old(txStore.nextSequence) + (if sequence in old(txStore.failedSequences) then 0 else 1)
    ensures tx != null ==>
              if v.accepted then tx.txHash == resp.hash && tx.resultXdr == tx.resultMetaXdr == tx.resultCode == ""
              else unchanged(tx)
  {
    if tx == null {
      return Verdict(false, true, "nil_tx");
    }
    if txStore == null {
      return Verdict(false, true, "nil_tx_store");
    }
    match resp.status
    case Pending | Duplicate =>
      if resp.hash == "" {
        return Verdict(false, true, "no_hash");
      }
      var err := txStore.AddUnconfirmed(sequence, resp.hash, maxLedger, tx.id);
      if err.Some? {
        return Verdict(false, true, "store_add");
      }
      tx.txHash := resp.hash;
      tx.resultXdr := "";
      tx.resultMetaXdr := "";
      tx.resultCode := "";
      return Verdict(true, false, "");
    case TryAgainLater => return Verdict(false, false, "try_again_later");
    case Error =>
      var typedCode := ParseSubmitErrorResult(resp.error);
      if typedCode.None? {
        return Verdict(false, true, "submit_error_undecoded");
      }
      var (fatal, reason) := ClassifySubmitErrorCode(typedCode.value);
      return Verdict(false, fatal, reason);
    case UnknownStatus(_) => return Verdict(false, true, "unknown_submit");
  }

  /**
   A verdict is never both accepted and fatal; it has a reason exactly when not accepted; it is accepted
   exactly when the network took the transaction under a hash and the store can add the sequence; and it
   leaves room for a retry exactly when the network asks for one. The reason names the cause.
   */
  lemma {:induction false} VerdictsAreCoherent(st: State, resp: Response, sequence: int)
    ensures var v := Judge(st, resp, sequence);
            && !(v.accepted && v.fatal)
            && (v.reason == "" <==> v.accepted)
            && (v.accepted <==>
                  (resp.status == Pending || resp.status == Duplicate) && resp.hash != "" && AddError(st, sequence).None?)
            && (!v.accepted && !v.fatal <==>
                  resp.status == TryAgainLater || (resp.status == Error &&
                    (resp.error == Decodes(TxBadSeq) || resp.error == Decodes(TxInsufficientFee)
                     || resp.error == Decodes(TxInternalError))))
            && (Taken(resp) && resp.hash == "" ==> v.reason == "no_hash")
            && (Taken(resp) && resp.hash != "" && AddError(st, sequence).Some? ==> v.reason == "store_add")
            && (resp.status == TryAgainLater ==> v.reason == "try_again_later")
            && (resp.status.UnknownStatus? ==> v.reason == "unknown_submit")
            && (resp.status == Error ==>
                  match resp.error
                  case Decodes(TxBadSeq) => v.reason == "bad_seq"
                  case Decodes(TxInsufficientFee) => v.reason == "insufficient_fee"
                  case Decodes(TxInternalError) => v.reason == "internal_error"
                  case Decodes(OtherCode(name)) => v.reason == name
                  case _ => v.reason == "submit_error_undecoded")
  {
  }

  /** The store after one response, and after several for the same sequence. */
  function AfterResponse(st: State, resp: Response, sequence: int, maxLedger: nat, tx: string): State {
    if Judge(st, resp, sequence).accepted then AfterAdd(st, UnconfirmedTx(sequence, resp.hash, maxLedger, tx)) else st
  }

  function AfterResponses(st: State, resps: seq<Response>, sequence: int, maxLedger: nat, tx: string): State
    decreases |resps|
  {
    if resps == [] then st
    else AfterResponse(AfterResponses(st, resps[..|resps| - 1], sequence, maxLedger, tx), resps[|resps| - 1],
                       sequence, maxLedger, tx)
  }

  /** The first response the network took under a hash. */
  ghost predicate FirstTaken(resps: seq<Response>, k: nat) {
    && k < |resps| && Taken(resps[k]) && resps[k].hash != ""
    && forall j :: 0 <= j < k ==> !(Taken(resps[j]) && resps[j].hash != "")
  }

  lemma {:induction false} NoneTaken(resps: seq<Response>)
    requires forall k: nat :: !FirstTaken(resps, k)
    ensures forall k :: 0 <= k < |resps| ==> !(Taken(resps[k]) && resps[k].hash != "")
    decreases |resps|
  {
    if resps != [] {
      var n := |resps| - 1;
      var front := resps[..n];
      forall k: nat ensures !FirstTaken(front, k) {
        assert !FirstTaken(resps, k);
      }
      NoneTaken(front);
      assert !FirstTaken(resps, n);
    }
  }

  /** While the store cannot add the sequence, no response changes it. */
  lemma {:induction false} RefusedStays(st: State, resps: seq<Response>, sequence: int, maxLedger: nat, tx: string)
    requires AddError(st, sequence).Some?
    ensures AfterResponses(st, resps, sequence, maxLedger, tx) == st
    decreases |resps|
  {
    if resps != [] {
      RefusedStays(st, resps[..|resps| - 1], sequence, maxLedger, tx);
    }
  }

  lemma {:induction false} NothingTakenStays(st: State, resps: seq<Response>, sequence: int, maxLedger: nat, tx: string)
    requires forall k :: 0 <= k < |resps| ==> !(Taken(resps[k]) && resps[k].hash != "")
    ensures AfterResponses(st, resps, sequence, maxLedger, tx) == st
    decreases |resps|
  {
    if resps != [] {
      NothingTakenStays(st, resps[..|resps| - 1], sequence, maxLedger, tx);
    }
  }

  lemma {:induction false} FirstTakenAdds(
      st: State, resps: seq<Response>, sequence: int, maxLedger: nat, tx: string, k: nat)
    requires AddError(st, sequence).None? && FirstTaken(resps, k)
    ensures AfterResponses(st, resps, sequence, maxLedger, tx) ==
            AfterAdd(st, UnconfirmedTx(sequence, resps[k].hash, maxLedger, tx))
    decreases |resps|
  {
    var n := |resps| - 1;
    var front := resps[..n];
    if k == n {
      NothingTakenStays(st, front, sequence, maxLedger, tx);
    } else {
      FirstTakenAdds(st, front, sequence, maxLedger, tx, k);
      var added := AfterResponses(st, front, sequence, maxLedger, tx);
      assert AddError(added, sequence).Some?;
    }
  }

  /**
   Any run of responses for one sequence. If the store cannot add it, or none was taken under a hash, the
   store stays as it is; else the first that was adds its entry, and no later one adds or replaces one.
   */
  lemma {:induction false} OneEntryPerSequence(st: State, resps: seq<Response>, sequence: int, maxLedger: nat, tx: string)
    ensures var after := AfterResponses(st, resps, sequence, maxLedger, tx);
            && (AddError(st, sequence).Some? || (forall k: nat :: !FirstTaken(resps, k)) ==> after == st)
            && (AddError(st, sequence).None? ==> forall k: nat :: FirstTaken(resps, k) ==>
                  && after == AfterAdd(st, UnconfirmedTx(sequence, resps[k].hash, maxLedger, tx))
                  && after.unconfirmed == st.unconfirmed[sequence := UnconfirmedTx(sequence, resps[k].hash, maxLedger, tx)])
  {
    if AddError(st, sequence).Some? {
      RefusedStays(st, resps, sequence, maxLedger, tx);
    } else if k: nat :| FirstTaken(resps, k) {
      forall k: nat | FirstTaken(resps, k)
        ensures AfterResponses(st, resps, sequence, maxLedger, tx) ==
                AfterAdd(st, UnconfirmedTx(sequence, resps[k].hash, maxLedger, tx))
      {
        FirstTakenAdds(st, resps, sequence, maxLedger, tx, k);
      }
    } else {
      NoneTaken(resps);
      NothingTakenStays(st, resps, sequence, maxLedger, tx);
    }
  }

  // ---- Sequence and fee arithmetic of the built transaction ----

  /** The sequence on the wire: the source account is given the previous one, floored at zero, and then incremented. */
  function WireSequence(nextSubmitSeq: int): int {
    (if nextSubmitSeq - 1 > 0 then nextSubmitSeq - 1 else 0) + 1
  }

  lemma {:induction false} WireSequenceIsExactIff(nextSubmitSeq: int)
    ensures WireSequence(nextSubmitSeq) == nextSubmitSeq <==> nextSubmitSeq >= 1
  {
  }

  /** Once the on-chain mark is positive, every sequence the store hands out goes on the wire as itself. */
  lemma {:induction false} HandedOutGoesOutAsItself(initial: int, ops: seq<Op>)
    requires Exec(Begin(initial), ops).store.lastOnchain >= 1
    ensures var next := Peek(Exec(Begin(initial), ops).store);
            WireSequence(next) == next
  {
    Conservation(initial, ops);
    WireSequenceIsExactIff(Peek(Exec(Begin(initial), ops).store));
  }

  /** What a simulation contributes: resource fee data or none. */
  datatype Simulation = Simulation(hasData: bool, minResourceFee: int)

  function ResourceFee(sim: Simulation, buffer: int): int {
    if sim.hasData then sim.minResourceFee + buffer else 0
  }

  /** The total fee `assembleTransaction` reports. */
  function ReportedFee(sim: Simulation, inclusionFee: int, buffer: int): int {
    inclusionFee + ResourceFee(sim, buffer)
  }

  /**
   The fee on the envelope: the inclusion fee for each operation, and the resource fee the first one carries.
   A contract invocation is given the simulation's; any other keeps `carried`, whatever it came with.
   */
  function EnvelopeFee(
      sim: Simulation, inclusionFee: int, buffer: int, operations: nat, invokesContract: bool, carried: int): int {
    inclusionFee * operations + (if invokesContract && sim.hasData then ResourceFee(sim, buffer) else carried)
  }

  /**
   The reported fee is the envelope's exactly for one operation (or a zero bid) where the simulation's data
   is attached; and for one operation exactly if it is attached, or the operation already carries just the
   resource fee that is reported.
   */
  lemma {:induction false} ReportedFeeIsExactIff(
      sim: Simulation, inclusionFee: int, buffer: int, operations: nat, invokesContract: bool, carried: int)
    ensures var exact := ReportedFee(sim, inclusionFee, buffer) ==
                         EnvelopeFee(sim, inclusionFee, buffer, operations, invokesContract, carried);
            var attached := invokesContract && sim.hasData;
            && (attached ==> (exact <==> operations == 1 || inclusionFee == 0))
            && (operations == 1 ==> (exact <==> attached || carried == ResourceFee(sim, buffer)))
  {
    if ReportedFee(sim, inclusionFee, buffer) ==
       EnvelopeFee(sim, inclusionFee, buffer, operations, invokesContract, carried) && invokesContract && sim.hasData {
      assert inclusionFee * (operations - 1) == 0;
    }
  }
}
