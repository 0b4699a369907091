/** Submitting the transaction that restores archived ledger entries, with bounded retries. */
module Restore {
  import opened Wrappers
  import opened Submit

  datatype SendReply = SendFails | Replies(status: Status)
  datatype PollReply = PollFails | PollsSuccess | PollsOther

  /** What one round meets: the answer to sending, to polling if it gets that far, and whether the pause is cancelled. */
  datatype Round = Round(send: SendReply, poll: PollReply, cancelled: bool)

  datatype Outcome = Initiated | Succeeded | Failed
  datatype Result = Nil | Cancelled | Failure

  datatype Step = Again | Confirmed | Rejected

  /** How a round ends, leaving cancellation aside. */
  function StepOf(r: Round): Step {
    match r.send
    case SendFails => Again
    case Replies(status) =>
      match status
      case TryAgainLater => Again
      case Error => Rejected
      case UnknownStatus(_) => Rejected
      case _ =>
        match r.poll
        case PollFails => Again
        case PollsSuccess => Confirmed
        case PollsOther => Rejected
  }

  /** How a round ends, answer by answer. */
  lemma {:induction false} StepsByAnswer(r: Round)
    ensures StepOf(r) == Confirmed <==>
            (r.send == Replies(Pending) || r.send == Replies(Duplicate)) && r.poll == PollsSuccess
    ensures StepOf(r) == Again <==>
            || r.send == SendFails || r.send == Replies(TryAgainLater)
            || ((r.send == Replies(Pending) || r.send == Replies(Duplicate)) && r.poll == PollFails)
    ensures StepOf(r) == Rejected <==>
            || r.send == Replies(Error) || (r.send.Replies? && r.send.status.UnknownStatus?)
            || ((r.send == Replies(Pending) || r.send == Replies(Duplicate)) && r.poll == PollsOther)
  {
  }

  /** Round `k` is reached: every round before it asked to try again and was not cancelled. */
  ghost predicate Reached(script: nat -> Round, k: nat) {
    forall j :: 0 <= j < k ==> StepOf(script(j)) == Again && !script(j).cancelled
  }

  /** The restore ends in round `k`, not by running out of attempts. */
  ghost predicate EndsIn(script: nat -> Round, max: nat, k: nat) {
    k < max && Reached(script, k) && (StepOf(script(k)) != Again || script(k).cancelled)
  }

  method HandleRestore(signed: Option<string>, script: nat -> Round, resyncs: bool, max: nat)
    returns (result: Result, sent: seq<string>, outcomes: seq<Outcome>)
    // an envelope that cannot be built or signed ends it before anything is sent or recorded
    ensures signed.None? ==> result == Failure && sent == [] && outcomes == []
    // at most `max` sends, all of the one signed envelope
    ensures |sent| <= max && forall e :: e in sent ==> Some(e) == signed
    // one send a round, up to the round that ends it
    ensures signed.Some? ==> forall k: nat :: EndsIn(script, max, k) ==> |sent| == k + 1
    ensures signed.Some? && Reached(script, max) ==> |sent| == max
    // nil exactly after a confirmed round followed by a successful resync
    ensures result == Nil <==> signed.Some? && resyncs && exists k: nat :: EndsIn(script, max, k) && StepOf(script(k)) == Confirmed
    ensures result == Cancelled <==>
              signed.Some? && exists k: nat :: EndsIn(script, max, k) && StepOf(script(k)) == Again
    // so nil takes a round that was accepted and polled to success
    ensures result == Nil ==> resyncs && exists k: nat ::
              && k < max && |sent| == k + 1
              && (script(k).send == Replies(Pending) || script(k).send == Replies(Duplicate))
              && script(k).poll == PollsSuccess
    // and a recorded success is such a round too
    ensures Succeeded in outcomes ==> exists k: nat ::
              && k < max && |sent| == k + 1
              && (script(k).send == Replies(Pending) || script(k).send == Replies(Duplicate))
              && script(k).poll == PollsSuccess
    // once initiated, exactly one verdict is recorded unless it was cancelled
    ensures signed.Some? ==>
              outcomes == [Initiated] +
                (if result == Cancelled then []
                 else if exists k: nat :: EndsIn(script, max, k) && StepOf(script(k)) == Confirmed then [Succeeded]
                 else [Failed])
  {
    sent, outcomes := [], [];
    if signed.None? {
      return Failure, sent, outcomes;
    }
    outcomes := [Initiated];
    for attempt := 0 to max
      invariant |sent| == attempt && Reached(script, attempt)
      invariant forall e :: e in sent ==> Some(e) == signed
      invariant outcomes == [Initiated]
    {
      var round := script(attempt);
      sent := sent + [signed.value];
      OneEnd(script, max, attempt);
      match round.send
      case SendFails =>
        if round.cancelled {
          return Cancelled, sent, outcomes;
        }
      case Replies(status) =>
        match status
        case Pending | Duplicate =>
          match round.poll {
            case PollFails =>
              if round.cancelled {
                return Cancelled, sent, outcomes;
              }
            case PollsSuccess =>
              outcomes := outcomes + [Succeeded];
              assert EndsIn(script, max, attempt);
              return if resyncs then Nil else Failure, sent, outcomes;
            case PollsOther =>
              outcomes := outcomes + [Failed];
              return Failure, sent, outcomes;
          }
        case TryAgainLater =>
          if round.cancelled {
            return Cancelled, sent, outcomes;
          }
        case Error =>
          outcomes := outcomes + [Failed];
          return Failure, sent, outcomes;
        case UnknownStatus(_) =>
          outcomes := outcomes + [Failed];
          return Failure, sent, outcomes;
    }
    outcomes := outcomes + [Failed];
    return Failure, sent, outcomes;
  }

  /** A reached round that ends the restore is the only one that does. */
  lemma {:induction false} OneEnd(script: nat -> Round, max: nat, k: nat)
    requires k < max && Reached(script, k)
    ensures StepOf(script(k)) != Again || script(k).cancelled ==> forall j: nat :: EndsIn(script, max, j) <==> j == k
  {
    if StepOf(script(k)) != Again || script(k).cancelled {
      forall j: nat ensures EndsIn(script, max, j) <==> j == k {
        assert j > k ==> !Reached(script, j);
      }
    }
  }
}
