/** What becomes of one request's outcome over any run, step by step. */
module PipelineFates {
  import opened Wrappers
  import opened PipelineProtocol
  import opened PipelineInvariant
  import opened PipelineTheorems

  // ----- One place at a time -----

  function One(here: bool): nat {
    if here then 1 else 0
  }

  /** The number of places that know an id. */
  function Places(s: State, id: nat): nat {
    One(id in s.pending) + One(id in Ids(s.ready)) + One(id in s.failed) + One(id in Ids(s.delivered)) +
    One(id in Ids(s.dropped)) + One(id in s.reported) + One(id in s.lost)
  }

  lemma OnePlace(s: State, id: nat)
    requires Inv(s)
    ensures Places(s, id) <= 1
  {
    hide QueueSound, Provenance, Ids, Times, InHand;
    assert Census(s, id) <= 1;
    TimesMember(Ids(s.ready), id);
    TimesMember(s.failed, id);
    TimesMember(Ids(s.delivered), id);
    TimesMember(Ids(s.dropped), id);
    TimesMember(s.reported, id);
    TimesMember(s.lost, id);
  }

  lemma IdsPrefix(a: seq<Ready>, b: seq<Ready>, id: nat)
    requires a <= b && id in Ids(a)
    ensures id in Ids(b)
  {
    IdsConcat(a, b[|a|..]);
    assert a + b[|a|..] == b;
  }

  /** Nothing is ever taken back. */
  lemma HistoryGrows(s: State, step: Step)
    requires Enabled(s, step)
    ensures var t := Next(s, step);
            s.delivered <= t.delivered && s.dropped <= t.dropped && s.reported <= t.reported && s.lost <= t.lost
  {
    hide BeginWait, SpinOnce, Ids, Without;
    match step {
      case WaitFor(id) => BeginWaitGrows(s, id, None);
      case FlushNext => if s.caller.rest != [] { BeginWaitGrows(s, s.caller.rest[0], Some(s.caller.rest[1..])); }
      case Spin => SpinGrows(s, s.caller.id, s.caller.flush);
      case _ =>
    }
  }

  lemma BeginWaitGrows(s: State, id: nat, flush: Option<seq<nat>>)
    ensures var t := BeginWait(s, id, flush);
            s.delivered <= t.delivered && s.dropped <= t.dropped && s.reported <= t.reported && s.lost <= t.lost
  {
    hide Ids, Without, Take;
  }

  lemma SpinGrows(s: State, id: nat, flush: Option<seq<nat>>)
    ensures var t := SpinOnce(s, id, flush);
            s.delivered <= t.delivered && s.dropped <= t.dropped && s.reported <= t.reported && s.lost <= t.lost
  {
    hide Ids, Without, Take, RemoveFirst;
  }

  // ----- Fates -----

  datatype Fate = Kept | HandedOut | Thrown

  /** What a step does to a failure that is waiting to be collected. */
  function FailureFate(s: State, step: Step, id: nat): Fate
    requires Enabled(s, step)
  {
    match step
    case PollFailures => HandedOut
    case Spin => if s.caller.id == id then HandedOut else Kept
    case Poll => Thrown
    case WaitFor(_) => Thrown
    case FlushNext => if s.caller.rest == [] then Kept else Thrown
    case Submit(_) => if |s.inFlight| >= s.limit then Thrown else Kept
    case _ => Kept
  }

  /** What a step does to a result that is waiting to be collected. */
  function ResultFate(s: State, step: Step, id: nat): Fate
    requires Enabled(s, step)
  {
    match step
    case Poll => HandedOut
    case Spin => if s.caller.id == id then HandedOut else Kept
    case WaitFor(wanted) => if wanted == id then HandedOut else Thrown
    case FlushNext => if s.caller.rest == [] then Kept else if s.caller.rest[0] == id then HandedOut else Thrown
    case Submit(_) => if |s.inFlight| >= s.limit then Thrown else Kept
    case _ => Kept
  }

  lemma FailureStep(s: State, step: Step, id: nat)
    requires Inv(s) && Enabled(s, step) && id in s.failed
    ensures var t := Next(s, step);
            match FailureFate(s, step, id)
            case Kept => id in t.failed
            case HandedOut => id in t.reported
            case Thrown => id in t.lost
  {
    OnePlace(s, id);
    hide Ids, Without, Take, RemoveFirst, Inv;
    if step.Spin? && s.caller.id != id && s.caller.id in s.failed {
      RemoveLeavesOthers(s.failed, s.caller.id, id);
    }
  }

  lemma ResultStep(s: State, step: Step, id: nat)
    requires Inv(s) && Enabled(s, step) && id in Ids(s.ready)
    ensures var t := Next(s, step);
            match ResultFate(s, step, id)
            case Kept => id in Ids(t.ready)
            case HandedOut => id in Ids(t.delivered)
            case Thrown => id in Ids(t.dropped)
  {
    hide Ids, Without, Take, RemoveFirst, Inv;
    IdsConcat(s.delivered, s.ready);
    IdsConcat(s.dropped, s.ready);
    match step {
      case Spin => TakenOrLeft(s, s.caller.id, id);
      case WaitFor(wanted) => TakenOrLeft(s, wanted, id);
      case FlushNext => if s.caller.rest != [] { TakenOrLeft(s, s.caller.rest[0], id); }
      case ReportHit => IdsPrefix(s.ready, Next(s, step).ready, id);
      case Finish(_) => IdsPrefix(s.ready, Next(s, step).ready, id);
      case _ =>
    }
  }

  /** Taking one result out of the list either takes this one or leaves it. */
  lemma TakenOrLeft(s: State, wanted: nat, id: nat)
    requires id in Ids(s.ready)
    ensures Take(s.ready, wanted).Some? ==>
              var (found, others) := Take(s.ready, wanted).value;
              && (wanted != id ==> id in Ids(others) && id in Ids(s.dropped + others))
              && (wanted == id ==> id in Ids(s.delivered + [found]))
  {
    if Take(s.ready, wanted).Some? {
      var (found, others) := Take(s.ready, wanted).value;
      IdsConcat(s.dropped, others);
      IdsConcat(s.delivered, [found]);
      assert Ids([found]) == [found.id];
      if wanted != id {
        TakeLeavesOthers(s.ready, wanted, id);
      }
    }
  }

  /** The first step of a run that does not keep the outcome decides. */
  function FailureFateOver(s: State, steps: seq<Step>, id: nat): Fate
    requires Run(s, steps).Some?
    decreases |steps|
  {
    if steps == [] then Kept
    else
      var fate := FailureFate(s, steps[0], id);
      if fate.Kept? then FailureFateOver(Next(s, steps[0]), steps[1..], id) else fate
  }

  function ResultFateOver(s: State, steps: seq<Step>, id: nat): Fate
    requires Run(s, steps).Some?
    decreases |steps|
  {
    if steps == [] then Kept
    else
      var fate := ResultFate(s, steps[0], id);
      if fate.Kept? then ResultFateOver(Next(s, steps[0]), steps[1..], id) else fate
  }

  lemma {:induction false} HistoryGrowsOver(s: State, steps: seq<Step>)
    requires Run(s, steps).Some?
    ensures var t := Run(s, steps).value;
            s.delivered <= t.delivered && s.dropped <= t.dropped && s.reported <= t.reported && s.lost <= t.lost
    decreases |steps|
  {
    hide Next, Enabled;
    if steps != [] {
      HistoryGrows(s, steps[0]);
      HistoryGrowsOver(Next(s, steps[0]), steps[1..]);
    }
  }

  lemma {:induction false} FailureOver(s: State, steps: seq<Step>, id: nat)
    requires Inv(s) && Run(s, steps).Some? && id in s.failed
    ensures var t := Run(s, steps).value;
            match FailureFateOver(s, steps, id)
            case Kept => id in t.failed
            case HandedOut => id in t.reported
            case Thrown => id in t.lost
    decreases |steps|
  {
    hide Next, Enabled, FailureFate, Inv;
    if steps != [] {
      var next := Next(s, steps[0]);
      FailureStep(s, steps[0], id);
      InvStep(s, steps[0]);
      if FailureFate(s, steps[0], id).Kept? {
        FailureOver(next, steps[1..], id);
      } else {
        HistoryGrowsOver(next, steps[1..]);
      }
    }
  }

  lemma {:induction false} ResultOver(s: State, steps: seq<Step>, id: nat)
    requires Inv(s) && Run(s, steps).Some? && id in Ids(s.ready)
    ensures var t := Run(s, steps).value;
            match ResultFateOver(s, steps, id)
            case Kept => id in Ids(t.ready)
            case HandedOut => id in Ids(t.delivered)
            case Thrown => id in Ids(t.dropped)
    decreases |steps|
  {
    hide Next, Enabled, ResultFate, Inv, Ids;
    if steps != [] {
      var next, t := Next(s, steps[0]), Run(s, steps).value;
      ResultStep(s, steps[0], id);
      InvStep(s, steps[0]);
      if ResultFate(s, steps[0], id).Kept? {
        ResultOver(next, steps[1..], id);
      } else {
        HistoryGrowsOver(next, steps[1..]);
        if ResultFate(s, steps[0], id).HandedOut? {
          IdsPrefix(next.delivered, t.delivered, id);
        } else {
          IdsPrefix(next.dropped, t.dropped, id);
        }
      }
    }
  }

  /**
  A failure is reported exactly when the first step that collects it is
  `poll_failures` or a turn of the wait on its own id. Every other collection,
  `poll` among them, loses it.
  */
  lemma FailureReportedExactly(s: State, steps: seq<Step>, id: nat)
    requires Reachable(s) && Run(s, steps).Some? && id in s.failed
    ensures var t, fate := Run(s, steps).value, FailureFateOver(s, steps, id);
            && (id in t.failed <==> fate.Kept?)
            && (id in t.reported <==> fate.HandedOut?)
            && (id in t.lost <==> fate.Thrown?)
  {
    hide Inv, Run, FailureFateOver, Ids;
    ReachableInv(s);
    FailureOver(s, steps, id);
    InvRun(s, steps);
    OnePlace(Run(s, steps).value, id);
  }

  /**
  A result is handed out exactly when the first step that collects it is `poll`
  or a wait on its own id. A wait on another id and a submission at the limit
  drop it.
  */
  lemma ResultDeliveredExactly(s: State, steps: seq<Step>, id: nat)
    requires Reachable(s) && Run(s, steps).Some? && id in Ids(s.ready)
    ensures var t, fate := Run(s, steps).value, ResultFateOver(s, steps, id);
            && (id in Ids(t.ready) <==> fate.Kept?)
            && (id in Ids(t.delivered) <==> fate.HandedOut?)
            && (id in Ids(t.dropped) <==> fate.Thrown?)
  {
    hide Inv, Run, ResultFateOver, Ids;
    ReachableInv(s);
    ResultOver(s, steps, id);
    InvRun(s, steps);
    OnePlace(Run(s, steps).value, id);
  }

  /** A submission discards results or failures exactly at the concurrency limit, when there are any. */
  lemma SubmitDiscardsExactly(s: State, target: Target)
    requires s.caller.Idle?
    ensures Next(s, Submit(target)).dropped != s.dropped <==> |s.inFlight| >= s.limit && s.ready != []
    ensures Next(s, Submit(target)).lost != s.lost <==> |s.inFlight| >= s.limit && s.failed != []
  {
    hide Without, Ids;
    assert s.ready == [] ==> s.dropped + s.ready == s.dropped;
    assert s.failed == [] ==> s.lost + s.failed == s.lost;
    assert |s.dropped + s.ready| == |s.dropped| + |s.ready| && |s.lost + s.failed| == |s.lost| + |s.failed|;
  }

  // ----- Witnesses -----

  lemma FailedRequest() returns (steps: seq<Step>)
    ensures Run(Initial(8), steps).Some?
    ensures var s := Run(Initial(8), steps).value;
            s.caller.Idle? && s.failed == [1] && s.inFlight == [1] && s.ready == [] && s.reported == [] && s.lost == []
  {
    hide Run;
    var a := Submitted(Initial(8), Target(Render, 0));
    ThenStep(Initial(8), a, Fail(1));
    steps := a + [Fail(1)];
  }

  /** `poll` before `poll_failures`: the failure is never reported. */
  lemma PollLosesFailure() returns (s: State, steps: seq<Step>)
    ensures Reachable(s) && 1 in s.failed && steps == [Poll, PollFailures]
    ensures Run(s, steps).Some? && 1 !in Run(s, steps).value.reported && 1 in Run(s, steps).value.lost
  {
    hide Run, Inv;
    var a := FailedRequest();
    s := Run(Initial(8), a).value;
    steps := [Poll, PollFailures];
    OneStep(s, Poll);
    ThenStep(s, [Poll], PollFailures);
    assert [Poll] + [PollFailures] == steps;
    assert FailureFateOver(s, steps, 1) == Thrown;
    FailureReportedExactly(s, steps, 1);
  }

  /** A submission at the limit drops a finished result. */
  lemma SubmitDropsResult() returns (s: State)
    ensures Reachable(s) && s.caller.Idle? && s.ready == [Ready(1, 10)]
    ensures Next(s, Submit(Target(Compute, 0))).dropped != s.dropped
    ensures 1 in Ids(Next(s, Submit(Target(Compute, 0))).dropped)
  {
    hide Run;
    var a := Submitted(Initial(8), Target(Render, 0));
    var s1 := Run(Initial(8), a).value;
    var b := Completed(s1, 1, 10);
    RunConcat(Initial(8), a, b);
    ThenStep(Initial(8), a + b, SetLimit(1));
    assert Run(Initial(8), a + b + [SetLimit(1)]).Some?;
    s := Run(Initial(8), a + b + [SetLimit(1)]).value;
    ReachableInv(s);
    SubmitDiscardsExactly(s, Target(Compute, 0));
    ResultStep(s, Submit(Target(Compute, 0)), 1);
  }

  // ----- Cancelling -----

  /** A result that is ready or still to come can be delivered. */
  lemma Deliverable(s: State, id: nat) returns (steps: seq<Step>)
    requires Inv(s) && s.caller.Idle? && (id in s.pending || id in Ids(s.ready))
    ensures Run(s, steps).Some? && id in Ids(Run(s, steps).value.delivered)
  {
    hide Run, Inv, Ids;
    steps := [];
    var t := s;
    assert Run(s, []) == Some(s) by { NoSteps(s); }
    if id in t.pending && t.pending[id].Compiling? {
      InvStep(t, Fill(id, 0));
      ThenStep(s, steps, Fill(id, 0));
      steps, t := steps + [Fill(id, 0)], Next(t, Fill(id, 0));
    }
    if id in t.pending {
      InvStep(t, Finish(id));
      ThenStep(s, steps, Finish(id));
      FinishedIsReady(t, id);
      steps, t := steps + [Finish(id)], Next(t, Finish(id));
    }
    ResultStep(t, Poll, id);
    ThenStep(s, steps, Poll);
    steps := steps + [Poll];
  }

  lemma NoSteps(s: State)
    ensures Run(s, []) == Some(s)
  {
  }

  lemma FinishedIsReady(s: State, id: nat)
    requires Enabled(s, Finish(id))
    ensures id in Ids(Next(s, Finish(id)).ready)
  {
    var r := Ready(id, s.pending[id].pipeline);
    IdsConcat(s.ready, [r]);
    assert Ids([r]) == [id];
  }

  /** No run after a cancellation delivers the result if and only if the request had already failed. */
  lemma CancelledNeverDeliveredExactly(s: State, id: nat)
    requires Reachable(s) && s.caller.Idle? && id in s.inFlight
    ensures (forall steps | Run(Next(s, Cancel(id)), steps).Some? ::
               id !in Ids(Run(Next(s, Cancel(id)), steps).value.delivered)) <==> id in s.failed
  {
    ReachableInv(s);
    var c := Next(s, Cancel(id));
    InvStep(s, Cancel(id));
    assert Live(s, id) && c.caller.Idle? && c.pending == s.pending && c.ready == s.ready && c.failed == s.failed;
    hide Inv, Run, Ids, Next, Without;
    if id in s.failed {
      forall steps | Run(c, steps).Some?
        ensures id !in Ids(Run(c, steps).value.delivered)
      {
        FailureOver(c, steps, id);
        InvRun(c, steps);
        OnePlace(Run(c, steps).value, id);
      }
    } else {
      var steps := Deliverable(c, id);
    }
  }

  /** A cancelled request whose result is delivered all the same. */
  lemma CancelledIsDelivered() returns (s: State, steps: seq<Step>)
    ensures Reachable(s) && s.caller.Idle? && 1 in s.inFlight
    ensures Run(Next(s, Cancel(1)), steps).Some? && 1 in Ids(Run(Next(s, Cancel(1)), steps).value.delivered)
  {
    hide Run, Inv, Ids, Without;
    var a := Submitted(Initial(8), Target(Render, 0));
    s := Run(Initial(8), a).value;
    ReachableInv(s);
    InvStep(s, Cancel(1));
    steps := Deliverable(Next(s, Cancel(1)), 1);
  }
}
