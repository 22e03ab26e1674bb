/**
What the fields of the compiler are after a run, told by the run alone: which
step a cached pipeline and a result come from, and which requests are queued.
*/
module PipelineHistory {
  import opened Wrappers
  import opened PipelineProtocol
  import opened PipelineInvariant
  import opened PipelineTheorems
  import opened PipelineFates

  // ----- The cache -----

  /** A completed compilation of a request for this key, or an insertion under it. */
  predicate Stores(step: Step, targets: map<nat, Target>, t: Target) {
    (step.Insert? && step.target == t) || (step.Fill? && step.id in targets && targets[step.id] == t)
  }

  predicate Clears(step: Step, t: Target) {
    match t.flavour
    case Render => step.ClearRender?
    case Compute => step.ClearCompute?
  }

  /** Step `i` stored a pipeline for the key and nothing has cleared it since. */
  predicate StoredBy(steps: seq<Step>, targets: map<nat, Target>, t: Target, i: nat) {
    i < |steps| && Stores(steps[i], targets, t) && forall j | i < j < |steps| :: !Clears(steps[j], t)
  }

  ghost predicate Stored(steps: seq<Step>, targets: map<nat, Target>, t: Target) {
    exists i: nat :: StoredBy(steps, targets, t, i)
  }

  /** No later step stored another. */
  predicate Latest(steps: seq<Step>, targets: map<nat, Target>, t: Target, i: nat) {
    StoredBy(steps, targets, t, i) && forall j | i < j < |steps| :: !Stores(steps[j], targets, t)
  }

  predicate TouchesCache(step: Step) {
    step.ClearRender? || step.ClearCompute? || step.Insert? || step.Fill?
  }

  lemma CacheKept(s: State, step: Step)
    requires Enabled(s, step) && !TouchesCache(step)
    ensures Next(s, step).cache == s.cache
  {
    hide Ids, Without, BeginWait, SpinOnce;
    WaitFields(s, step);
  }

  lemma CacheTouched(s: State, step: Step, targets: map<nat, Target>, t: Target)
    requires Provenance(s) && Enabled(s, step) && TouchesCache(step)
    requires forall id | id in s.targets :: id in targets && targets[id] == s.targets[id]
    ensures var n := Next(s, step);
            && (Clears(step, t) ==> t !in n.cache)
            && (Stores(step, targets, t) ==> t in n.cache && n.cache[t] == step.pipeline)
            && (!Clears(step, t) && !Stores(step, targets, t) ==>
                  (t in n.cache <==> t in s.cache) && (t in s.cache ==> n.cache[t] == s.cache[t]))
  {
    hide AllMade, Made, Collect, BeginWait, SpinOnce, Release;
  }

  lemma CacheStep(s: State, step: Step, targets: map<nat, Target>, t: Target)
    requires Provenance(s) && Enabled(s, step)
    requires forall id | id in s.targets :: id in targets && targets[id] == s.targets[id]
    ensures var n := Next(s, step);
            && (Clears(step, t) ==> t !in n.cache)
            && (Stores(step, targets, t) ==> t in n.cache && n.cache[t] == step.pipeline)
            && (!Clears(step, t) && !Stores(step, targets, t) ==>
                  (t in n.cache <==> t in s.cache) && (t in s.cache ==> n.cache[t] == s.cache[t]))
  {
    hide Next, Provenance;
    if TouchesCache(step) {
      CacheTouched(s, step, targets, t);
    } else {
      CacheKept(s, step);
    }
  }

  /** From any state: stored since, or there before and never cleared. */
  lemma {:induction false} CacheOver(s: State, steps: seq<Step>, t: Target)
    requires Inv(s) && Run(s, steps).Some?
    ensures var n := Run(s, steps).value;
            && (t in n.cache <==>
                Stored(steps, n.targets, t) || (t in s.cache && forall i | 0 <= i < |steps| :: !Clears(steps[i], t)))
            && (forall i: nat | Latest(steps, n.targets, t, i) :: t in n.cache && n.cache[t] == steps[i].pipeline)
            && (t in s.cache &&
                (forall i | 0 <= i < |steps| :: !Clears(steps[i], t) && !Stores(steps[i], n.targets, t)) ==>
                  t in n.cache && n.cache[t] == s.cache[t])
    decreases |steps|
  {
    if steps != [] {
      var next, rest, targets := Next(s, steps[0]), steps[1..], Run(s, steps).value.targets;
      RunKeepsTargets(s, steps);
      CacheStep(s, steps[0], targets, t);
      InvStep(s, steps[0]);
      hide Inv, Next, Clears, Stores;
      CacheOver(next, rest, t);
      Shifted(steps, targets, t);
    }
  }

  /** What the first step adds to the steps after it. */
  lemma Shifted(steps: seq<Step>, targets: map<nat, Target>, t: Target)
    requires steps != []
    ensures var rest := steps[1..];
            && ((forall i | 0 <= i < |steps| :: !Clears(steps[i], t)) <==>
                !Clears(steps[0], t) && forall i | 0 <= i < |rest| :: !Clears(rest[i], t))
            && (Stored(steps, targets, t) <==>
                Stored(rest, targets, t) ||
                (Stores(steps[0], targets, t) && forall i | 0 <= i < |rest| :: !Clears(rest[i], t)))
            && (forall i: nat | Latest(steps, targets, t, i) :: i == 0 || Latest(rest, targets, t, i - 1))
  {
    hide Clears, Stores;
    var rest := steps[1..];
    assert forall i | 0 < i < |steps| :: steps[i] == rest[i - 1];
    assert forall i | 0 <= i < |rest| :: rest[i] == steps[i + 1];
    if Stored(rest, targets, t) {
      var i: nat :| StoredBy(rest, targets, t, i);
      assert StoredBy(steps, targets, t, i + 1);
    }
    if Stores(steps[0], targets, t) && forall i | 0 <= i < |rest| :: !Clears(rest[i], t) {
      assert StoredBy(steps, targets, t, 0);
    }
    if Stored(steps, targets, t) {
      var i: nat :| StoredBy(steps, targets, t, i);
      if i > 0 {
        assert StoredBy(rest, targets, t, i - 1);
      }
    }
    forall i: nat | Latest(steps, targets, t, i)
      ensures i == 0 || Latest(rest, targets, t, i - 1)
    {
      assert i > 0 ==> StoredBy(rest, targets, t, i - 1);
    }
  }

  /**
  After any run a key is cached if and only if a compilation for it completed, or
  a pipeline was inserted for it, after the last clearing of its cache; and what is
  cached is the pipeline of the latest such step.
  */
  lemma CacheExactly(limit: nat, steps: seq<Step>, t: Target)
    requires Run(Initial(limit), steps).Some?
    ensures var s := Run(Initial(limit), steps).value;
            && (t in s.cache <==> Stored(steps, s.targets, t))
            && (forall i: nat | Latest(steps, s.targets, t, i) :: t in s.cache && s.cache[t] == steps[i].pipeline)
  {
    hide Run, Inv;
    InitialInv(limit);
    CacheOver(Initial(limit), steps, t);
  }

  /** A submission is answered from the cache if and only if its key is stored, and then with the latest pipeline. */
  lemma HitsExactly(limit: nat, steps: seq<Step>)
    requires Run(Initial(limit), steps).Some? && Run(Initial(limit), steps).value.caller.Allocated?
    ensures var s := Run(Initial(limit), steps).value;
            var t, after := s.caller.target, Next(s, LookUp).caller;
            && (after.Hit? <==> Stored(steps, s.targets, t))
            && (after.Missed? <==> !Stored(steps, s.targets, t))
            && (forall i: nat | Latest(steps, s.targets, t, i) :: after == Hit(t, s.caller.id, steps[i].pipeline))
  {
    hide Run;
    CacheExactly(limit, steps, Run(Initial(limit), steps).value.caller.target);
  }

  // ----- Prefixes of a run -----

  /** The state in which step `i` is taken. */
  function At(s: State, steps: seq<Step>, i: nat): State
    requires i <= |steps| && Run(s, steps[..i]).Some?
  {
    Run(s, steps[..i]).value
  }

  lemma {:induction false} PrefixRuns(s: State, steps: seq<Step>, i: nat)
    requires Run(s, steps).Some? && i <= |steps|
    ensures Run(s, steps[..i]).Some?
    decreases |steps|
  {
    hide Next, Enabled;
    if i > 0 {
      assert steps[..i][1..] == steps[1..][..i - 1];
      PrefixRuns(Next(s, steps[0]), steps[1..], i - 1);
    }
  }

  lemma StepAt(s: State, steps: seq<Step>, i: nat)
    requires Run(s, steps).Some? && i < |steps|
    ensures Run(s, steps[..i]).Some? && Run(s, steps[..i + 1]).Some? && Enabled(At(s, steps, i), steps[i])
    ensures At(s, steps, i + 1) == Next(At(s, steps, i), steps[i])
  {
    hide Next, Enabled;
    PrefixRuns(s, steps, i);
    PrefixRuns(s, steps, i + 1);
    assert steps[..i + 1] == steps[..i] + [steps[i]];
    RunConcat(s, steps[..i], [steps[i]]);
    assert [steps[i]][1..] == [];
  }

  lemma AtInv(limit: nat, steps: seq<Step>, i: nat)
    requires Run(Initial(limit), steps).Some? && i <= |steps|
    ensures Run(Initial(limit), steps[..i]).Some? && Inv(At(Initial(limit), steps, i))
  {
    hide Inv, Run;
    PrefixRuns(Initial(limit), steps, i);
    InitialInv(limit);
    InvRun(Initial(limit), steps[..i]);
  }

  // ----- Results -----

  /** A result for an id, wherever it is: with Metal, in the caller's hand, ready, handed out or thrown away. */
  predicate Has(s: State, id: nat, pipeline: Pipeline) {
    || Ready(id, pipeline) in s.ready || Ready(id, pipeline) in s.delivered || Ready(id, pipeline) in s.dropped
    || (id in s.pending && s.pending[id].Filled? && s.pending[id].pipeline == pipeline)
    || (s.caller.Hit? && s.caller.id == id && s.caller.pipeline == pipeline)
  }

  /** A step that gives an id its pipeline: its own handler, or its own look-up in the cache. */
  predicate Gives(s: State, step: Step, id: nat, pipeline: Pipeline) {
    || step == Fill(id, pipeline)
    || (step.LookUp? && s.caller.Allocated? && s.caller.id == id && s.caller.target in s.cache &&
        s.cache[s.caller.target] == pipeline)
  }

  lemma HasStep(s: State, step: Step, id: nat, pipeline: Pipeline)
    requires Enabled(s, step) && Has(Next(s, step), id, pipeline)
    ensures Has(s, id, pipeline) || Gives(s, step, id, pipeline)
  {
    hide Ids, Without, BeginWait, SpinOnce;
    match step {
      case WaitFor(wanted) => HasWait(s, wanted, None, id, pipeline);
      case FlushNext =>
        if s.caller.rest != [] {
          HasWait(s, s.caller.rest[0], Some(s.caller.rest[1..]), id, pipeline);
        }
      case Spin => HasSpin(s, s.caller.id, s.caller.flush, id, pipeline);
      case _ =>
    }
  }

  lemma HasWait(s: State, wanted: nat, flush: Option<seq<nat>>, id: nat, pipeline: Pipeline)
    requires Has(BeginWait(s, wanted, flush), id, pipeline)
    ensures Has(s, id, pipeline)
  {
    hide Ids, Without, Take;
  }

  lemma HasSpin(s: State, wanted: nat, flush: Option<seq<nat>>, id: nat, pipeline: Pipeline)
    requires s.caller.Waiting? && Has(SpinOnce(s, wanted, flush), id, pipeline)
    ensures Has(s, id, pipeline)
  {
    hide Ids, Without, Take, RemoveFirst;
  }

  lemma {:induction false} HasOver(limit: nat, steps: seq<Step>, n: nat, id: nat, pipeline: Pipeline) returns (i: nat)
    requires Run(Initial(limit), steps).Some? && n <= |steps| && Run(Initial(limit), steps[..n]).Some?
    requires Has(At(Initial(limit), steps, n), id, pipeline)
    ensures i < n && Run(Initial(limit), steps[..i]).Some? &&
            Gives(At(Initial(limit), steps, i), steps[i], id, pipeline)
    decreases n
  {
    hide Run, Next, Has, Gives;
    if n == 0 {
      NothingYet(limit, steps, id, pipeline);
    } else {
      StepAt(Initial(limit), steps, n - 1);
      HasStep(At(Initial(limit), steps, n - 1), steps[n - 1], id, pipeline);
      if Gives(At(Initial(limit), steps, n - 1), steps[n - 1], id, pipeline) {
        i := n - 1;
      } else {
        i := HasOver(limit, steps, n - 1, id, pipeline);
      }
    }
  }

  lemma NothingYet(limit: nat, steps: seq<Step>, id: nat, pipeline: Pipeline)
    ensures Run(Initial(limit), steps[..0]).Some? && !Has(At(Initial(limit), steps, 0), id, pipeline)
  {
  }

  /**
  The pipeline of a result that was handed out is the one that the request's own
  handler compiled, or the one cached for its key when it was submitted.
  */
  lemma ResultIsOwn(limit: nat, steps: seq<Step>, r: Ready) returns (i: nat)
    requires Run(Initial(limit), steps).Some? && r in Run(Initial(limit), steps).value.delivered
    ensures i < |steps| && Run(Initial(limit), steps[..i]).Some?
    ensures Gives(At(Initial(limit), steps, i), steps[i], r.id, r.pipeline)
  {
    hide Run, Gives;
    assert steps[..|steps|] == steps;
    i := HasOver(limit, steps, |steps|, r.id, r.pipeline);
  }

  // ----- The queue -----

  /** The result or failure of a request has been collected. */
  predicate Collected(s: State, id: nat) {
    id in Ids(s.delivered) || id in Ids(s.dropped) || id in s.reported || id in s.lost
  }

  predicate Enqueues(s: State, step: Step, id: nat) {
    step.Record? && s.caller == Sent(id)
  }

  lemma QueuedNotCollected(s: State, id: nat)
    requires Inv(s) && (id in s.inFlight || s.caller == Sent(id))
    ensures !Collected(s, id)
  {
    hide Ids, Provenance, Conserved;
    OnePlace(s, id);
  }

  predicate Waits(s: State, step: Step) {
    step.WaitFor? || step.Spin? || (step.FlushNext? && s.caller.Flushing? && s.caller.rest != [])
  }

  lemma OtherReleases(s: State, step: Step, id: nat)
    requires Enabled(s, step) && !Waits(s, step) && id in s.inFlight && !Collected(s, id)
    ensures id in Next(s, step).inFlight <==> step != Cancel(id) && !Collected(Next(s, step), id)
  {
    hide Ids, Without, BeginWait, SpinOnce;
    IdsConcat(s.dropped, s.ready);
    IdsConcat(s.delivered, s.ready);
  }

  /** What is released from the queue is what has just been collected. */
  lemma ReleasedIsCollected(s: State, step: Step, id: nat)
    requires Inv(s) && Enabled(s, step) && id in s.inFlight
    ensures id in Next(s, step).inFlight <==> step != Cancel(id) && !Collected(Next(s, step), id)
  {
    QueuedNotCollected(s, id);
    hide Inv, Collected, BeginWait, SpinOnce, Collect, Release;
    if !Waits(s, step) {
      OtherReleases(s, step, id);
    } else if step.WaitFor? {
      WaitReleases(s, step.id, None, id);
    } else if step.Spin? {
      SpinReleases(s, s.caller.id, s.caller.flush, id);
    } else {
      WaitReleases(s, s.caller.rest[0], Some(s.caller.rest[1..]), id);
    }
  }

  lemma WaitReleases(s: State, wanted: nat, flush: Option<seq<nat>>, id: nat)
    requires Inv(s) && id in s.inFlight && !Collected(s, id)
    ensures id in BeginWait(s, wanted, flush).inFlight <==> !Collected(BeginWait(s, wanted, flush), id)
  {
    hide Inv, Ids, Without, Take, RemoveFirst;
    IdsConcat(s.dropped, s.ready);
    if Take(s.ready, wanted).Some? {
      var (found, others) := Take(s.ready, wanted).value;
      IdsConcat(s.delivered, [found]);
      IdsConcat(s.dropped, others);
      TakeParts(s.ready, wanted, id);
      OnlyId(found);
    }
  }

  lemma OnlyId(r: Ready)
    ensures Ids([r]) == [r.id]
  {
    assert [r][1..] == [];
  }

  /** Taking a result leaves the others. */
  lemma {:induction false} TakeParts(rs: seq<Ready>, wanted: nat, id: nat)
    requires Take(rs, wanted).Some?
    ensures var (found, others) := Take(rs, wanted).value;
            id in Ids(rs) <==> id == wanted || id in Ids(others)
  {
    if rs[0].id != wanted {
      TakeParts(rs[1..], wanted, id);
      var (found, others) := Take(rs[1..], wanted).value;
      IdsConcat([rs[0]], others);
      OnlyId(rs[0]);
    }
  }

  lemma SpinReleases(s: State, wanted: nat, flush: Option<seq<nat>>, id: nat)
    requires Inv(s) && s.caller.Waiting? && id in s.inFlight && !Collected(s, id)
    ensures id in SpinOnce(s, wanted, flush).inFlight <==> !Collected(SpinOnce(s, wanted, flush), id)
  {
    hide Inv, Ids, Without, Take, RemoveFirst;
    if Take(s.ready, wanted).Some? {
      var (found, others) := Take(s.ready, wanted).value;
      IdsConcat(s.delivered, [found]);
      OnlyId(found);
    }
  }

  /** Only the end of a submission adds to the queue. */
  lemma OnlyRecordAdds(s: State, step: Step, id: nat)
    requires Enabled(s, step) && id !in s.inFlight
    ensures id in Next(s, step).inFlight <==> Enqueues(s, step, id)
  {
    hide Ids, BeginWait, SpinOnce;
    match step {
      case WaitFor(wanted) => WaitOnlyReleases(s, wanted, None);
      case FlushNext => if s.caller.rest != [] { WaitOnlyReleases(s, s.caller.rest[0], Some(s.caller.rest[1..])); }
      case Spin => WaitOnlyReleases(s, s.caller.id, s.caller.flush);
      case _ =>
    }
  }

  lemma WaitOnlyReleases(s: State, wanted: nat, flush: Option<seq<nat>>)
    ensures forall id | id in BeginWait(s, wanted, flush).inFlight :: id in s.inFlight
    ensures forall id | id in SpinOnce(s, wanted, flush).inFlight :: id in s.inFlight
  {
    hide Ids, Take, RemoveFirst;
  }

  lemma StaysCollected(s: State, step: Step, id: nat)
    requires Enabled(s, step) && Collected(s, id)
    ensures Collected(Next(s, step), id)
  {
    HistoryGrows(s, step);
    hide Next, Ids;
    var n := Next(s, step);
    if id in Ids(s.delivered) {
      IdsPrefix(s.delivered, n.delivered, id);
    } else if id in Ids(s.dropped) {
      IdsPrefix(s.dropped, n.dropped, id);
    }
  }

  /** Step `i` of the first `n` queued the request, and it was not cancelled since. */
  predicate QueuedBy(limit: nat, steps: seq<Step>, n: nat, id: nat, i: nat)
    requires n <= |steps| && Run(Initial(limit), steps).Some?
  {
    && i < n && Run(Initial(limit), steps[..i]).Some? && Enqueues(At(Initial(limit), steps, i), steps[i], id)
    && forall j | i < j < n :: steps[j] != Cancel(id)
  }

  ghost predicate Queued(limit: nat, steps: seq<Step>, n: nat, id: nat)
    requires n <= |steps| && Run(Initial(limit), steps).Some?
  {
    exists i: nat :: QueuedBy(limit, steps, n, id, i)
  }

  lemma QueuedThen(limit: nat, steps: seq<Step>, n: nat, id: nat)
    requires n < |steps| && Run(Initial(limit), steps).Some? && Run(Initial(limit), steps[..n]).Some?
    ensures Queued(limit, steps, n + 1, id) <==>
            Enqueues(At(Initial(limit), steps, n), steps[n], id) ||
            (Queued(limit, steps, n, id) && steps[n] != Cancel(id))
  {
    hide Run, Enqueues;
    if Queued(limit, steps, n + 1, id) {
      var i: nat :| QueuedBy(limit, steps, n + 1, id, i);
      if i < n {
        assert QueuedBy(limit, steps, n, id, i);
      }
    }
    if Enqueues(At(Initial(limit), steps, n), steps[n], id) {
      assert QueuedBy(limit, steps, n + 1, id, n);
    }
    if Queued(limit, steps, n, id) && steps[n] != Cancel(id) {
      var i: nat :| QueuedBy(limit, steps, n, id, i);
      assert QueuedBy(limit, steps, n + 1, id, i);
    }
  }

  lemma {:induction false} QueueOver(limit: nat, steps: seq<Step>, n: nat, id: nat)
    requires Run(Initial(limit), steps).Some? && n <= |steps|
    ensures Run(Initial(limit), steps[..n]).Some?
    ensures var s := At(Initial(limit), steps, n);
            id in s.inFlight <==> Queued(limit, steps, n, id) && !Collected(s, id)
    decreases n
  {
    hide Run, Inv, Next, Collected, Enqueues, Queued;
    PrefixRuns(Initial(limit), steps, n);
    if n == 0 {
      NothingQueued(limit, steps, id);
    } else {
      QueueOver(limit, steps, n - 1, id);
      StepAt(Initial(limit), steps, n - 1);
      AtInv(limit, steps, n - 1);
      AtInv(limit, steps, n);
      QueuedThen(limit, steps, n - 1, id);
      QueueOverStep(At(Initial(limit), steps, n - 1), steps[n - 1], id);
    }
  }

  lemma QueueOverStep(s: State, step: Step, id: nat)
    requires Inv(s) && Enabled(s, step) && Inv(Next(s, step))
    ensures var n := Next(s, step);
            && (id in s.inFlight ==> (id in n.inFlight <==> step != Cancel(id) && !Collected(n, id)))
            && (id !in s.inFlight ==> (id in n.inFlight <==> Enqueues(s, step, id)))
            && (Enqueues(s, step, id) ==> id !in s.inFlight && !Collected(n, id) && step != Cancel(id))
            && (Collected(s, id) ==> Collected(n, id))
  {
    hide Next, Collected;
    if id in s.inFlight {
      ReleasedIsCollected(s, step, id);
    } else {
      OnlyRecordAdds(s, step, id);
    }
    if id in Next(s, step).inFlight {
      QueuedNotCollected(Next(s, step), id);
    }
    if Collected(s, id) {
      StaysCollected(s, step, id);
    }
  }

  lemma NothingQueued(limit: nat, steps: seq<Step>, id: nat)
    requires Run(Initial(limit), steps).Some?
    ensures Run(Initial(limit), steps[..0]).Some? && id !in At(Initial(limit), steps, 0).inFlight
    ensures !Queued(limit, steps, 0, id)
  {
  }

  /**
  After any run the queue holds exactly the requests that were handed to Metal,
  were not cancelled since, and whose outcome nobody has collected.
  */
  lemma QueueExactly(limit: nat, steps: seq<Step>, id: nat)
    requires Run(Initial(limit), steps).Some?
    ensures var s := Run(Initial(limit), steps).value;
            id in s.inFlight <==> Queued(limit, steps, |steps|, id) && !Collected(s, id)
  {
    hide Run, Collected, Queued;
    assert steps[..|steps|] == steps;
    QueueOver(limit, steps, |steps|, id);
  }

  // ----- Its order -----

  predicate Increasing(ids: seq<nat>) {
    forall i, j | 0 <= i < j < |ids| :: ids[i] < ids[j]
  }

  predicate Below(ids: seq<nat>, id: nat) {
    forall x | x in ids :: x < id
  }

  predicate InOrder(s: State) {
    && Increasing(s.inFlight) && Below(s.inFlight, s.nextId)
    && (s.caller.Allocated? || s.caller.Hit? || s.caller.Missed? || s.caller.Sent? ==>
          s.caller.id < s.nextId && Below(s.inFlight, s.caller.id))
  }

  lemma Prepended(id: nat, ids: seq<nat>)
    requires Increasing(ids) && forall x | x in ids :: id < x
    ensures Increasing([id] + ids)
  {
    var all := [id] + ids;
    forall i, j | 0 <= i < j < |all|
      ensures all[i] < all[j]
    {
      assert all[j] == ids[j - 1] && all[j] in ids && (i > 0 ==> all[i] == ids[i - 1]);
    }
  }

  lemma Appended(ids: seq<nat>, id: nat)
    requires Increasing(ids) && Below(ids, id)
    ensures Increasing(ids + [id])
  {
    var all := ids + [id];
    forall i, j | 0 <= i < j < |all|
      ensures all[i] < all[j]
    {
      assert all[i] == ids[i] && all[i] in ids;
    }
  }

  lemma {:induction false} WithoutIncreases(ids: seq<nat>, finished: seq<nat>)
    requires Increasing(ids)
    ensures Increasing(Without(ids, finished))
  {
    if ids != [] {
      var rest := Without(ids[1..], finished);
      assert Increasing(ids[1..]);
      WithoutIncreases(ids[1..], finished);
      assert forall x | x in ids[1..] :: ids[0] < x;
      hide Increasing;
      Prepended(ids[0], rest);
      assert [] + rest == rest;
    }
  }

  /** The queue lost some requests, the caller has none in hand, and the counter stands still. */
  ghost predicate Shrinks(s: State, t: State) {
    && t.nextId == s.nextId && (exists finished :: t.inFlight == Without(s.inFlight, finished))
    && !t.caller.Allocated? && !t.caller.Hit? && !t.caller.Missed? && !t.caller.Sent?
  }

  lemma ShrinksInOrder(s: State, t: State)
    requires InOrder(s) && Shrinks(s, t)
    ensures InOrder(t)
  {
    hide Increasing;
    var finished :| t.inFlight == Without(s.inFlight, finished);
    WithoutIncreases(s.inFlight, finished);
  }

  lemma BeginWaitShrinks(s: State, id: nat, flush: Option<seq<nat>>)
    ensures Shrinks(s, BeginWait(s, id, flush))
  {
    hide Ids, Take, Without;
    assert BeginWait(s, id, flush).inFlight == Without(s.inFlight, Ids(s.ready) + s.failed);
  }

  lemma SpinShrinks(s: State, id: nat, flush: Option<seq<nat>>)
    requires s.caller.Waiting?
    ensures SpinOnce(s, id, flush) == s || Shrinks(s, SpinOnce(s, id, flush))
  {
    hide Ids, Take, RemoveFirst;
    if SpinOnce(s, id, flush) != s {
      assert SpinOnce(s, id, flush).inFlight == Without(s.inFlight, [id]);
    }
  }

  lemma CollectShrinks(s: State, step: Step)
    requires Enabled(s, step) && (step.Submit? || step.Poll? || step.PollFailures? || step.Cancel?)
    ensures Next(s, step).inFlight == s.inFlight || Shrinks(s, Next(s, step))
  {
    hide Ids;
    var n := Next(s, step);
    assert Collect(s).inFlight == Without(s.inFlight, Ids(s.ready) + s.failed);
    match step {
      case Submit(_) => assert n.inFlight == s.inFlight || n.inFlight == Without(s.inFlight, Ids(s.ready) + s.failed);
      case Poll => assert n.inFlight == Without(s.inFlight, Ids(s.ready) + s.failed);
      case PollFailures => assert n.inFlight == Without(s.inFlight, s.failed);
      case Cancel(id) => assert n.inFlight == s.inFlight || n.inFlight == Without(s.inFlight, [id]);
    }
  }

  lemma InOrderStep(s: State, step: Step)
    requires InOrder(s) && Enabled(s, step)
    ensures InOrder(Next(s, step))
  {
    hide Ids, Without, BeginWait, SpinOnce, Increasing, Shrinks;
    var n := Next(s, step);
    match step {
      case WaitFor(id) =>
        BeginWaitShrinks(s, id, None);
        ShrinksInOrder(s, n);
      case FlushNext =>
        if s.caller.rest != [] {
          BeginWaitShrinks(s, s.caller.rest[0], Some(s.caller.rest[1..]));
          ShrinksInOrder(s, n);
        }
      case Spin =>
        SpinShrinks(s, s.caller.id, s.caller.flush);
        if n != s {
          ShrinksInOrder(s, n);
        }
      case Record => Appended(s.inFlight, s.caller.id);
      case _ =>
        if step.Submit? || step.Poll? || step.PollFailures? || step.Cancel? {
          CollectShrinks(s, step);
          if n.inFlight != s.inFlight {
            ShrinksInOrder(s, n);
          }
        }
    }
  }

  lemma {:induction false} InOrderRun(s: State, steps: seq<Step>)
    requires InOrder(s) && Run(s, steps).Some?
    ensures InOrder(Run(s, steps).value)
    decreases |steps|
  {
    hide InOrder, Next;
    if steps != [] {
      InOrderStep(s, steps[0]);
      InOrderRun(Next(s, steps[0]), steps[1..]);
    }
  }

  /** The queue is in the order of submission. */
  lemma QueueInOrder(s: State)
    requires Reachable(s)
    ensures Increasing(s.inFlight) && Below(s.inFlight, s.nextId)
  {
    hide Run;
    var limit: nat, steps: seq<Step> :| Run(Initial(limit), steps) == Some(s);
    InOrderRun(Initial(limit), steps);
  }
}
