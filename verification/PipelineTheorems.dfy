/** What holds of every run of the pipeline compiler, under every interleaving. */
module PipelineTheorems {
  import opened Wrappers
  import opened PipelineProtocol
  import opened PipelineInvariant

  ghost predicate Reachable(s: State) {
    exists limit: nat, steps: seq<Step> :: Run(Initial(limit), steps) == Some(s)
  }

  lemma ReachableInv(s: State)
    requires Reachable(s)
    ensures Inv(s)
  {
    hide Inv, Run;
    var limit: nat, steps: seq<Step> :| Run(Initial(limit), steps) == Some(s);
    InitialInv(limit);
    InvRun(Initial(limit), steps);
  }

  // ----- At most once -----

  lemma {:induction false} OnceIsDistinct(ids: seq<nat>)
    requires forall id: nat :: Times(ids, id) <= 1
    ensures Distinct(ids)
  {
    if ids != [] {
      var rest := ids[1..];
      forall id: nat
        ensures Times(rest, id) <= 1
      {
        assert Times(ids, id) <= 1;
      }
      OnceIsDistinct(rest);
      TimesMember(rest, ids[0]);
      assert Times(ids, ids[0]) <= 1;
    }
  }

  /**
  No result is handed out twice, no request both succeeds and fails, nothing is
  delivered and dropped, and only issued ids are ever heard of.
  */
  lemma AtMostOnce(s: State)
    requires Reachable(s)
    ensures Distinct(Ids(s.delivered)) && Distinct(s.reported)
    ensures forall id | id in Ids(s.delivered) ::
              && 1 <= id < s.nextId && id !in s.reported && id !in s.lost && id !in Ids(s.dropped)
              && !Live(s, id)
  {
    ReachableInv(s);
    forall id: nat
      ensures Times(Ids(s.delivered), id) <= 1 && Times(s.reported, id) <= 1
    {
      assert Census(s, id) <= 1;
    }
    OnceIsDistinct(Ids(s.delivered));
    OnceIsDistinct(s.reported);
    forall id | id in Ids(s.delivered)
      ensures 1 <= id < s.nextId && id !in s.reported && id !in s.lost && id !in Ids(s.dropped) && !Live(s, id)
    {
      hide Ids, Times;
      assert Census(s, id) <= 1;
      TimesMember(Ids(s.delivered), id);
      TimesMember(s.reported, id);
      TimesMember(s.lost, id);
      TimesMember(Ids(s.dropped), id);
      TimesMember(Ids(s.ready), id);
      TimesMember(s.failed, id);
    }
  }

  /** When nothing is in the caller's hands, an issued id that is no longer live has exactly one fate. */
  lemma EveryRequestAccountedFor(s: State, id: nat)
    requires Reachable(s) && s.caller.Idle? && 1 <= id < s.nextId
    ensures Live(s, id) || id in Ids(s.delivered) || id in Ids(s.dropped) || id in s.reported || id in s.lost
  {
    ReachableInv(s);
    hide Ids, Times;
    assert Census(s, id) == 1;
    TimesMember(Ids(s.delivered), id);
    TimesMember(s.reported, id);
    TimesMember(s.lost, id);
    TimesMember(Ids(s.dropped), id);
    TimesMember(Ids(s.ready), id);
    TimesMember(s.failed, id);
  }

  function Allocations(steps: seq<Step>): nat {
    if steps == [] then 0 else (if steps[0].Allocate? then 1 else 0) + Allocations(steps[1..])
  }

  /** The n-th submission gets the id n: request ids never repeat. */
  lemma {:induction false} IdsAreSequential(s: State, steps: seq<Step>)
    requires Run(s, steps).Some?
    ensures Run(s, steps).value.nextId == s.nextId + Allocations(steps)
    decreases |steps|
  {
    if steps != [] {
      CounterKept(s, steps[0]);
      hide Next;
      IdsAreSequential(Next(s, steps[0]), steps[1..]);
    }
  }

  // ----- Waiting -----

  /** A wait spins only on a request that Metal still holds; otherwise the next turn ends it. */
  lemma NoStuckWait(s: State)
    requires Reachable(s) && s.caller.Waiting?
    ensures s.caller.id in s.pending || !Next(s, Spin).caller.Waiting?
    ensures s.caller.id in Ids(s.ready) ==>
              exists r: Ready :: r.id == s.caller.id && r in s.ready && Next(s, Spin).delivered == s.delivered + [r]
    ensures s.caller.id !in Ids(s.ready) && s.caller.id in s.failed ==>
              Next(s, Spin).reported == s.reported + [s.caller.id]
  {
    ReachableInv(s);
    hide Ids, RemoveFirst, Take;
    assert Live(s, s.caller.id);
    var t := Next(s, Spin);
    if s.caller.id in Ids(s.ready) {
      var (found, others) := Take(s.ready, s.caller.id).value;
      assert found.id == s.caller.id && found in s.ready && t.delivered == s.delivered + [found];
    }
  }

  /** Block handles are held for exactly the queued requests, in queue order. */
  lemma HandlesFollowQueue(s: State)
    requires Reachable(s)
    ensures s.handles == s.inFlight && Distinct(s.inFlight)
    ensures forall id | id in s.inFlight :: Live(s, id)
  {
    ReachableInv(s);
  }

  // ----- Flushing -----

  predicate InFlush(s: State) {
    s.caller.Flushing? || (s.caller.Waiting? && s.caller.flush.Some?)
  }

  /** However a flush and the handlers interleave, it leaves an empty queue. */
  lemma FlushEmptiesQueue(s: State)
    requires Reachable(s) && s.caller == Flushing([])
    ensures Next(s, FlushNext).caller.Idle? && Next(s, FlushNext).inFlight == [] && Next(s, FlushNext).handles == []
  {
    ReachableInv(s);
    EmptyOrMember(s.inFlight);
  }

  lemma EmptyOrMember(ids: seq<nat>)
    ensures ids == [] || exists id :: id in ids
  {
    if ids != [] {
      assert ids[0] in ids;
    }
  }

  function Remaining(s: State): nat {
    if s.caller.Flushing? then 2 * |s.caller.rest| + 1
    else if InFlush(s) then 2 * |s.caller.flush.value| + 2
    else 0
  }

  function FlushStep(s: State): Step {
    if s.caller.Flushing? then FlushNext else Spin
  }

  /** Once Metal holds nothing, only the flush itself can move, and each move brings it closer to its end. */
  lemma FlushProgress(s: State)
    requires Inv(s) && s.pending == map[] && InFlush(s)
    ensures forall step | Enabled(s, step) :: step == FlushStep(s)
    ensures Enabled(s, FlushStep(s))
    ensures var t := Next(s, FlushStep(s));
            t.pending == map[] && Remaining(t) < Remaining(s) && (InFlush(t) || (t.caller.Idle? && t.inFlight == []))
  {
    hide Conserved, Provenance, Ids, RemoveFirst, Take;
    var t := Next(s, FlushStep(s));
    if s.caller.Waiting? {
      assert Live(s, s.caller.id);
    } else if s.caller.rest == [] {
      EmptyOrMember(s.inFlight);
    } else {
      CollectQueue(s);
      assert Collect(s).pending == map[];
      assert s.caller.rest[0] !in Collect(s).inFlight;
    }
  }

  /** The state in which a flush ends when Metal holds nothing any more. */
  function FlushAll(s: State): (t: State)
    requires Inv(s) && s.pending == map[] && (InFlush(s) || s.caller.Idle?)
    ensures t.caller.Idle?
    decreases Remaining(s)
  {
    if s.caller.Idle? then s
    else
      FlushProgress(s);
      InvStep(s, FlushStep(s));
      FlushAll(Next(s, FlushStep(s)))
  }

  /** With nothing outstanding, a flush returns and the queue is empty. */
  lemma {:induction false} FlushTerminates(s: State)
    requires Inv(s) && s.pending == map[] && InFlush(s)
    ensures FlushAll(s).caller.Idle? && FlushAll(s).inFlight == []
    decreases Remaining(s)
  {
    hide Inv, Next;
    FlushProgress(s);
    InvStep(s, FlushStep(s));
    var t := Next(s, FlushStep(s));
    if InFlush(t) {
      FlushTerminates(t);
    }
  }

  // ----- What a flush returns -----

  /** The rest of a flush over an empty compiler does nothing but count down. */
  lemma {:induction false} FlushOfNothing(s: State)
    requires Inv(s) && s.pending == map[] && s.caller.Flushing?
    requires s.inFlight == [] && s.ready == [] && s.failed == []
    ensures FlushAll(s).delivered == s.delivered && FlushAll(s).dropped == s.dropped
    decreases Remaining(s)
  {
    hide Inv;
    FlushProgress(s);
    InvStep(s, FlushNext);
    var t := Next(s, FlushNext);
    if s.caller.rest != [] {
      NothingToCollect(s, s.caller.rest[0], Some(s.caller.rest[1..]));
      FlushOfNothing(t);
    }
  }

  lemma NothingToCollect(s: State, id: nat, flush: Option<seq<nat>>)
    requires s.inFlight == [] && s.ready == [] && s.failed == [] && flush.Some?
    ensures var t := BeginWait(s, id, flush);
            && t.caller == Flushing(flush.value) && t.inFlight == [] && t.ready == [] && t.failed == []
            && t.delivered == s.delivered && t.dropped == s.dropped
  {
    assert s.dropped + [] == s.dropped;
  }

  /**
  A flush begun when every compilation has finished returns the result of the
  first queued request only: its first poll takes the others and drops them.
  */
  lemma FinishedFlushReturnsFirst(s: State)
    requires Inv(s) && s.pending == map[] && s.caller.Idle?
    ensures Inv(Next(s, Flush))
    ensures var t := FlushAll(Next(s, Flush));
            if s.inFlight == [] then t.delivered == s.delivered && t.dropped == s.dropped
            else
              match Take(s.ready, s.inFlight[0])
              case Some((found, others)) => t.delivered == s.delivered + [found] && t.dropped == s.dropped + others
              case None => t.delivered == s.delivered && t.dropped == s.dropped + s.ready
  {
    hide Inv, Take, Ids;
    InvStep(s, Flush);
    var f := Next(s, Flush);
    FlushProgress(f);
    InvStep(f, FlushNext);
    if s.inFlight != [] {
      var t := Next(f, FlushNext);
      FirstCollects(f, f.caller.rest[0], Some(f.caller.rest[1..]));
      FlushOfNothing(t);
    }
  }

  lemma FirstCollects(s: State, id: nat, flush: Option<seq<nat>>)
    requires Inv(s) && s.pending == map[] && flush.Some?
    ensures var t := BeginWait(s, id, flush);
            t.caller == Flushing(flush.value) && t.inFlight == [] && t.ready == [] && t.failed == []
  {
    CollectQueue(s);
    CollectPending(s);
    EmptyOrMember(Collect(s).inFlight);
  }

  /** So nothing is lost by such a flush exactly when no result but the first request's is ready. */
  lemma FinishedFlushLosesNothingExactly(s: State)
    requires Inv(s) && s.pending == map[] && s.caller.Idle?
    ensures Inv(Next(s, Flush))
    ensures FlushAll(Next(s, Flush)).dropped == s.dropped <==>
            s.inFlight == [] || forall r | r in s.ready :: r.id == s.inFlight[0]
  {
    FinishedFlushReturnsFirst(s);
    if s.inFlight != [] {
      var first := s.inFlight[0];
      hide Inv, FlushAll, Next;
      if Take(s.ready, first).Some? {
        TakenOnce(s, first);
      } else {
        forall r | r in s.ready
          ensures r.id != first
        {
          IdsMember(s.ready, first);
        }
        if s.ready != [] {
          assert s.ready[0] in s.ready;
        }
        assert s.dropped + [] == s.dropped;
      }
    }
  }

  lemma TakenOnce(s: State, id: nat)
    requires Inv(s) && id in Ids(s.ready)
    ensures Take(s.ready, id).value.1 == [] <==> forall r | r in s.ready :: r.id == id
  {
    hide QueueSound, Provenance;
    var (found, others) := Take(s.ready, id).value;
    if others != [] {
      var other := others[0];
      assert other in others && other in s.ready;
      TakeSplits(s.ready, id, other.id);
      IdsMember(others, other.id);
      TimesMember(Ids(others), other.id);
      assert Census(s, other.id) <= 1;
      assert other.id != id;
    } else {
      forall r | r in s.ready
        ensures r.id == id
      {
        IdsMember(s.ready, r.id);
        if r.id != id {
          TakeLeavesOthers(s.ready, id, r.id);
        }
      }
    }
  }

  lemma {:induction false} RunConcat(s: State, a: seq<Step>, b: seq<Step>)
    requires Run(s, a).Some?
    ensures Run(s, a + b) == Run(Run(s, a).value, b)
    decreases |a|
  {
    hide Next, Enabled;
    if a == [] {
      assert a + b == b;
    } else {
      assert (a + b)[1..] == a[1..] + b;
      RunConcat(Next(s, a[0]), a[1..], b);
    }
  }

  lemma OneStep(s: State, step: Step)
    requires Enabled(s, step)
    ensures Run(s, [step]) == Some(Next(s, step))
  {
    hide Next, Enabled;
    assert [step][1..] == [];
  }

  lemma ThenStep(s: State, steps: seq<Step>, step: Step)
    requires Run(s, steps).Some? && Enabled(Run(s, steps).value, step)
    ensures Run(s, steps + [step]) == Some(Next(Run(s, steps).value, step))
  {
    RunConcat(s, steps, [step]);
    OneStep(Run(s, steps).value, step);
  }

  /** A cache miss below the limit: the request ends up queued and with Metal. */
  lemma Submitted(s: State, target: Target) returns (steps: seq<Step>)
    requires s.caller.Idle? && target !in s.cache && |s.inFlight| < s.limit
    ensures var id := s.nextId;
            Run(s, steps) ==
            Some(s.(nextId := id + 1, targets := s.targets[id := target], pending := s.pending[id := Compiling(target)],
                    inFlight := s.inFlight + [id], handles := s.handles + [id]))
  {
    hide Run;
    OneStep(s, Submit(target));
    steps := [Submit(target)];
    ThenStep(s, steps, Allocate);
    steps := steps + [Allocate];
    ThenStep(s, steps, LookUp);
    steps := steps + [LookUp];
    ThenStep(s, steps, Send);
    steps := steps + [Send];
    ThenStep(s, steps, Record);
    steps := steps + [Record];
  }

  lemma Completed(s: State, id: nat, pipeline: Pipeline) returns (steps: seq<Step>)
    requires id in s.pending && s.pending[id].Compiling?
    ensures Run(s, steps).Some?
    ensures var t := Run(s, steps).value;
            && t.pending == s.pending - {id} && t.ready == s.ready + [Ready(id, pipeline)]
            && t.caller == s.caller && t.inFlight == s.inFlight
  {
    hide Run;
    OneStep(s, Fill(id, pipeline));
    ThenStep(s, [Fill(id, pipeline)], Finish(id));
    steps := [Fill(id, pipeline)] + [Finish(id)];
    var f := Next(s, Fill(id, pipeline));
    assert f.pending - {id} == s.pending - {id};
  }

  /** Such a loss happens: two finished requests, and the flush drops the second. */
  lemma FlushLosesResults() returns (s: State)
    ensures Reachable(s) && Inv(s) && s.caller.Idle? && s.pending == map[] && |s.ready| == 2
    ensures Inv(Next(s, Flush)) && FlushAll(Next(s, Flush)).dropped != s.dropped
  {
    hide Run, Inv, Next, FlushAll;
    var a := Submitted(Initial(8), Target(Render, 0));
    var s1 := Run(Initial(8), a).value;
    var b := Submitted(s1, Target(Compute, 0));
    RunConcat(Initial(8), a, b);
    var s2 := Run(s1, b).value;
    var c := Completed(s2, 1, 10);
    RunConcat(Initial(8), a + b, c);
    var s3 := Run(s2, c).value;
    var d := Completed(s3, 2, 20);
    RunConcat(Initial(8), a + b + c, d);
    s := Run(s3, d).value;
    assert Run(Initial(8), a + b + c + d) == Some(s);
    assert s.ready == [Ready(1, 10), Ready(2, 20)] && s.inFlight == [1, 2];
    assert s.ready[1] in s.ready;
    ReachableInv(s);
    FinishedFlushLosesNothingExactly(s);
  }

  // ----- The cache -----

  predicate Origin(step: Step, s: State, target: Target, pipeline: Pipeline) {
    || step == Insert(target, pipeline)
    || (step.Fill? && step.pipeline == pipeline && step.id in s.targets && s.targets[step.id] == target)
  }

  lemma TargetsKept(s: State, step: Step)
    requires Provenance(s) && Enabled(s, step)
    ensures forall id | id in s.targets :: id in Next(s, step).targets && Next(s, step).targets[id] == s.targets[id]
  {
    hide Ids, Without, BeginWait, SpinOnce;
    WaitFields(s, step);
  }

  lemma {:induction false} RunKeepsTargets(s: State, steps: seq<Step>)
    requires Inv(s) && Run(s, steps).Some?
    ensures var t := Run(s, steps).value;
            forall id | id in s.targets :: id in t.targets && t.targets[id] == s.targets[id]
    decreases |steps|
  {
    if steps != [] {
      TargetsKept(s, steps[0]);
      InvStep(s, steps[0]);
      hide Inv, Next;
      RunKeepsTargets(Next(s, steps[0]), steps[1..]);
    }
  }

  lemma MadeBy(s: State, step: Step, target: Target, pipeline: Pipeline)
    requires Provenance(s) && Enabled(s, step)
    requires (target, pipeline) in Next(s, step).made && (target, pipeline) !in s.made
    ensures Origin(step, s, target, pipeline)
  {
    hide Ids, Without, BeginWait, SpinOnce;
    WaitFields(s, step);
  }

  /** A pipeline is recorded for a key only by compiling or inserting it for that key. */
  lemma {:induction false} MadeOrigin(s: State, steps: seq<Step>, target: Target, pipeline: Pipeline)
    requires Inv(s) && Run(s, steps).Some? && (target, pipeline) in Run(s, steps).value.made
    ensures (target, pipeline) in s.made ||
            exists i :: 0 <= i < |steps| && Origin(steps[i], Run(s, steps).value, target, pipeline)
    decreases |steps|
  {
    hide Next;
    if steps != [] && (target, pipeline) !in s.made {
      var next := Next(s, steps[0]);
      InvStep(s, steps[0]);
      if (target, pipeline) in next.made {
        MadeBy(s, steps[0], target, pipeline);
        RunKeepsTargets(s, steps);
        assert Origin(steps[0], Run(s, steps).value, target, pipeline);
      } else {
        MadeOrigin(next, steps[1..], target, pipeline);
        var i :| 0 <= i < |steps[1..]| && Origin(steps[1..][i], Run(s, steps).value, target, pipeline);
        assert steps[i + 1] == steps[1..][i];
      }
    }
  }

  /**
  Every cached pipeline, and every pipeline handed out for a request, was
  compiled from or inserted for a descriptor with the same key.
  */
  lemma CacheAndResultsSound(limit: nat, steps: seq<Step>, target: Target, pipeline: Pipeline)
    requires Run(Initial(limit), steps).Some?
    requires var s := Run(Initial(limit), steps).value;
             || (target in s.cache && s.cache[target] == pipeline)
             || (exists r: Ready :: r in s.delivered &&
                  r.pipeline == pipeline && r.id in s.targets && s.targets[r.id] == target)
    ensures exists i :: 0 <= i < |steps| && Origin(steps[i], Run(Initial(limit), steps).value, target, pipeline)
  {
    var s := Run(Initial(limit), steps).value;
    hide Run;
    InitialInv(limit);
    InvRun(Initial(limit), steps);
    if r :| r in s.delivered && r.pipeline == pipeline && r.id in s.targets && s.targets[r.id] == target {
      assert Made(s, r);
    }
    assert (target, pipeline) in s.made;
    MadeOrigin(Initial(limit), steps, target, pipeline);
  }

  /** Every delivered result has a submission on record. */
  lemma DeliveredWasSubmitted(s: State)
    requires Reachable(s)
    ensures forall r | r in s.delivered :: r.id in s.targets && (s.targets[r.id], r.pipeline) in s.made
  {
    ReachableInv(s);
    assert forall r | r in s.delivered :: Made(s, r);
  }
}
