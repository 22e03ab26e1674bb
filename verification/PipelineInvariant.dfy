/** What every step of the pipeline protocol keeps. */
module PipelineInvariant {
  import opened Wrappers
  import opened PipelineProtocol

  // ----- Every issued id is in exactly one place -----

  function Times(ids: seq<nat>, id: nat): nat {
    if ids == [] then 0 else (if ids[0] == id then 1 else 0) + Times(ids[1..], id)
  }

  predicate InHand(c: Caller, id: nat) {
    (c.Allocated? || c.Hit? || c.Missed?) && c.id == id
  }

  /** In how many places a request id is. */
  function Census(s: State, id: nat): nat {
    (if id in s.pending then 1 else 0) + Times(Ids(s.ready), id) + Times(s.failed, id) +
    Times(Ids(s.delivered), id) + Times(Ids(s.dropped), id) + Times(s.reported, id) + Times(s.lost, id) +
    (if InHand(s.caller, id) then 1 else 0)
  }

  ghost predicate Conserved(s: State) {
    s.nextId >= 1 && forall id: nat :: Census(s, id) == if 1 <= id < s.nextId then 1 else 0
  }

  // ----- No queued request is forgotten -----

  /** A result for this id is still to come or waiting to be collected. */
  predicate Live(s: State, id: nat) {
    id in s.pending || id in Ids(s.ready) || id in s.failed
  }

  predicate Distinct(ids: seq<nat>) {
    forall i, j | 0 <= i < j < |ids| :: ids[i] != ids[j]
  }

  predicate QueueSound(s: State) {
    && s.handles == s.inFlight
    && Distinct(s.inFlight)
    && (forall id | id in s.inFlight :: Live(s, id))
    && (s.caller.Sent? ==> s.caller.id !in s.inFlight && Live(s, s.caller.id))
    && (s.caller.Waiting? ==> s.caller.id in s.inFlight)
    && (s.caller.Waiting? && s.caller.flush.Some? ==>
          forall id | id in s.inFlight :: id == s.caller.id || id in s.caller.flush.value)
    && (s.caller.Flushing? ==> forall id | id in s.inFlight :: id in s.caller.rest)
  }

  // ----- Every pipeline comes from its own key -----

  predicate Made(s: State, r: Ready) {
    r.id in s.targets && (s.targets[r.id], r.pipeline) in s.made
  }

  predicate AllMade(s: State, rs: seq<Ready>) {
    forall r | r in rs :: Made(s, r)
  }

  predicate Provenance(s: State) {
    && (forall t | t in s.cache :: (t, s.cache[t]) in s.made)
    && (forall id | id in s.pending ::
          && id in s.targets && s.targets[id] == s.pending[id].target
          && (s.pending[id].Filled? ==> Made(s, Ready(id, s.pending[id].pipeline))))
    && AllMade(s, s.ready) && AllMade(s, s.delivered) && AllMade(s, s.dropped)
    && (s.caller.Allocated? || s.caller.Hit? || s.caller.Missed? ==>
          s.caller.id in s.targets && s.targets[s.caller.id] == s.caller.target)
    && (s.caller.Hit? ==> Made(s, Ready(s.caller.id, s.caller.pipeline)))
    && (forall id | id in s.targets :: id < s.nextId)
  }

  ghost predicate Inv(s: State) {
    Conserved(s) && QueueSound(s) && Provenance(s)
  }

  // ----- List lemmas -----

  lemma {:induction false} IdsConcat(a: seq<Ready>, b: seq<Ready>)
    ensures Ids(a + b) == Ids(a) + Ids(b)
  {
    if a == [] {
      assert a + b == b;
    } else {
      assert (a + b)[1..] == a[1..] + b;
      IdsConcat(a[1..], b);
    }
  }

  lemma {:induction false} IdsMember(rs: seq<Ready>, id: nat)
    ensures id in Ids(rs) <==> exists r :: r in rs && r.id == id
  {
    if rs != [] {
      IdsMember(rs[1..], id);
      if id == rs[0].id {
        assert rs[0] in rs;
      }
    }
  }

  lemma {:induction false} TimesConcat(a: seq<nat>, b: seq<nat>, id: nat)
    ensures Times(a + b, id) == Times(a, id) + Times(b, id)
  {
    if a == [] {
      assert a + b == b;
    } else {
      assert (a + b)[1..] == a[1..] + b;
      TimesConcat(a[1..], b, id);
    }
  }

  lemma TimesIdsConcat(a: seq<Ready>, b: seq<Ready>, id: nat)
    ensures Times(Ids(a + b), id) == Times(Ids(a), id) + Times(Ids(b), id)
  {
    IdsConcat(a, b);
    TimesConcat(Ids(a), Ids(b), id);
  }

  lemma TimesOne(r: Ready, id: nat)
    ensures Times(Ids([r]), id) == if r.id == id then 1 else 0
  {
    assert [r][1..] == [] && Ids([r]) == [r.id];
    assert [r.id][1..] == [];
  }

  lemma {:induction false} TimesMember(ids: seq<nat>, id: nat)
    ensures id in ids <==> Times(ids, id) > 0
  {
    if ids != [] {
      TimesMember(ids[1..], id);
    }
  }

  lemma {:induction false} TakeSplits(rs: seq<Ready>, taken: nat, id: nat)
    requires taken in Ids(rs)
    ensures Times(Ids(rs), id) == (if taken == id then 1 else 0) + Times(Ids(Take(rs, taken).value.1), id)
  {
    if rs[0].id != taken {
      TakeSplits(rs[1..], taken, id);
      var others := Take(rs[1..], taken).value.1;
      TimesIdsConcat([rs[0]], others, id);
      TimesOne(rs[0], id);
    }
  }

  lemma {:induction false} RemoveSplits(ids: seq<nat>, removed: nat, id: nat)
    requires removed in ids
    ensures Times(ids, id) == (if removed == id then 1 else 0) + Times(RemoveFirst(ids, removed), id)
  {
    if ids[0] != removed {
      RemoveSplits(ids[1..], removed, id);
      var rest := RemoveFirst(ids[1..], removed);
      assert ([ids[0]] + rest)[1..] == rest;
    }
  }

  lemma {:induction false} WithoutDistinct(ids: seq<nat>, finished: seq<nat>)
    requires Distinct(ids)
    ensures Distinct(Without(ids, finished))
  {
    if ids != [] {
      WithoutDistinct(ids[1..], finished);
      var rest := Without(ids[1..], finished);
      assert ids[0] !in ids[1..];
      assert ids[0] !in rest;
    }
  }

  // ----- Conservation -----

  /** Polling moves results and failures, wherever the results then go. */
  lemma CollectKeeps(s: State, d: seq<Ready>, x: seq<Ready>, c: Caller, id: nat)
    requires InHand(c, id) == InHand(s.caller, id)
    requires Times(Ids(d), id) + Times(Ids(x), id) ==
             Times(Ids(s.delivered), id) + Times(Ids(s.dropped), id) + Times(Ids(s.ready), id)
    ensures Census(Collect(s).(delivered := d, dropped := x, caller := c), id) == Census(s, id)
  {
    TimesConcat(s.lost, s.failed, id);
    assert Ids([]) == [];
  }

  lemma BeginWaitKeeps(s: State, waited: nat, flush: Option<seq<nat>>, id: nat)
    requires s.caller.Idle? || s.caller.Flushing?
    ensures Census(BeginWait(s, waited, flush), id) == Census(s, id)
  {
    hide Census, Without;
    var t := BeginWait(s, waited, flush);
    match Take(s.ready, waited) {
      case Some((found, others)) =>
        TakeSplits(s.ready, waited, id);
        TimesIdsConcat(s.delivered, [found], id);
        TimesIdsConcat(s.dropped, others, id);
        TimesOne(found, id);
        CollectKeeps(s, s.delivered + [found], s.dropped + others, t.caller, id);
      case None =>
        TimesIdsConcat(s.dropped, s.ready, id);
        CollectKeeps(s, s.delivered, s.dropped + s.ready, t.caller, id);
    }
  }

  lemma SpinKeeps(s: State, waited: nat, flush: Option<seq<nat>>, id: nat)
    requires s.caller == Waiting(waited, flush)
    ensures Census(SpinOnce(s, waited, flush), id) == Census(s, id)
  {
    hide Without, RemoveFirst, Take, Ids;
    match Take(s.ready, waited) {
      case Some((found, others)) =>
        TakeSplits(s.ready, waited, id);
        TimesIdsConcat(s.delivered, [found], id);
        TimesOne(found, id);
      case None =>
        if waited in s.failed {
          RemoveSplits(s.failed, waited, id);
          TimesConcat(s.reported, [waited], id);
        }
    }
  }

  lemma SubmitKeeps(s: State, target: Target, id: nat)
    requires s.caller.Idle?
    ensures Census(Next(s, Submit(target)), id) == Census(s, id)
  {
    hide Without, Ids;
    TimesIdsConcat(s.dropped, s.ready, id);
    CollectKeeps(s, s.delivered, s.dropped + s.ready, Drained(target), id);
  }

  lemma PollKeeps(s: State, id: nat)
    requires s.caller.Idle?
    ensures Census(Next(s, Poll), id) == Census(s, id)
  {
    hide Without, Ids;
    TimesIdsConcat(s.delivered, s.ready, id);
    CollectKeeps(s, s.delivered + s.ready, s.dropped, s.caller, id);
  }

  lemma PollFailuresKeeps(s: State, id: nat)
    requires s.caller.Idle?
    ensures Census(Next(s, PollFailures), id) == Census(s, id)
  {
    hide Without, Ids;
    TimesConcat(s.reported, s.failed, id);
  }

  lemma ReportHitKeeps(s: State, id: nat)
    requires s.caller.Hit?
    ensures Census(Next(s, ReportHit), id) == Census(s, id)
  {
    hide Ids, Times;
    var r := Ready(s.caller.id, s.caller.pipeline);
    TimesIdsConcat(s.ready, [r], id);
    TimesOne(r, id);
  }

  lemma SendKeeps(s: State, id: nat)
    requires Conserved(s) && s.caller.Missed?
    ensures Census(Next(s, Send), id) == Census(s, id)
  {
    hide Ids, Times;
    assert Census(s, s.caller.id) <= 1;
  }

  lemma FinishKeeps(s: State, finished: nat, id: nat)
    requires Enabled(s, Finish(finished))
    ensures Census(Next(s, Finish(finished)), id) == Census(s, id)
  {
    hide Ids, Times;
    var r := Ready(finished, s.pending[finished].pipeline);
    TimesIdsConcat(s.ready, [r], id);
    TimesOne(r, id);
  }

  lemma FailKeeps(s: State, finished: nat, id: nat)
    requires Enabled(s, Fail(finished))
    ensures Census(Next(s, Fail(finished)), id) == Census(s, id)
  {
    hide Ids;
    TimesConcat(s.failed, [finished], id);
  }

  /** Every step but `Allocate` only moves ids between places. */
  lemma StepKeeps(s: State, step: Step, id: nat)
    requires Conserved(s) && Enabled(s, step) && !step.Allocate?
    ensures Census(Next(s, step), id) == Census(s, id)
  {
    match step {
      case Submit(target) => SubmitKeeps(s, target, id);
      case ReportHit => ReportHitKeeps(s, id);
      case Send => SendKeeps(s, id);
      case Poll => PollKeeps(s, id);
      case PollFailures => PollFailuresKeeps(s, id);
      case WaitFor(waited) => BeginWaitKeeps(s, waited, None, id);
      case Spin => SpinKeeps(s, s.caller.id, s.caller.flush, id);
      case FlushNext =>
        if s.caller.rest != [] {
          BeginWaitKeeps(s, s.caller.rest[0], Some(s.caller.rest[1..]), id);
        }
      case Finish(finished) => FinishKeeps(s, finished, id);
      case Fail(finished) => FailKeeps(s, finished, id);
      case _ => OtherKeeps(s, step, id);
    }
  }

  predicate Other(step: Step) {
    step.SetLimit? || step.LookUp? || step.Record? || step.Cancel? || step.Flush? || step.ClearRender? ||
    step.ClearCompute? || step.Insert? || step.Fill?
  }

  lemma OtherKeeps(s: State, step: Step, id: nat)
    requires Enabled(s, step) && Other(step)
    ensures Census(Next(s, step), id) == Census(s, id)
  {
    hide Ids, Times, Without;
  }

  /** What waiting leaves alone. */
  predicate WaitKeeps(s: State, t: State) {
    && t.nextId == s.nextId && t.limit == s.limit && t.cache == s.cache && t.pending == s.pending
    && t.targets == s.targets && t.made == s.made
  }

  lemma BeginWaitFields(s: State, id: nat, flush: Option<seq<nat>>)
    ensures WaitKeeps(s, BeginWait(s, id, flush))
  {
    hide Ids, Without, Take;
  }

  lemma SpinFields(s: State, id: nat, flush: Option<seq<nat>>)
    ensures WaitKeeps(s, SpinOnce(s, id, flush))
  {
    hide Ids, Without, Take, RemoveFirst;
  }

  lemma WaitFields(s: State, step: Step)
    requires Enabled(s, step)
    ensures step.WaitFor? || step.Spin? || (step.FlushNext? && s.caller.rest != []) ==> WaitKeeps(s, Next(s, step))
  {
    hide BeginWait, SpinOnce, Collect;
    match step {
      case WaitFor(id) => BeginWaitFields(s, id, None);
      case FlushNext => if s.caller.rest != [] { BeginWaitFields(s, s.caller.rest[0], Some(s.caller.rest[1..])); }
      case Spin => SpinFields(s, s.caller.id, s.caller.flush);
      case _ =>
    }
  }

  lemma CounterKept(s: State, step: Step)
    requires Enabled(s, step)
    ensures Next(s, step).nextId == if step.Allocate? then s.nextId + 1 else s.nextId
  {
    hide Ids, Without, BeginWait, SpinOnce;
    WaitFields(s, step);
  }

  lemma ConservedStep(s: State, step: Step)
    requires Conserved(s) && Enabled(s, step)
    ensures Conserved(Next(s, step))
  {
    var t := Next(s, step);
    CounterKept(s, step);
    forall id: nat
      ensures Census(t, id) == if 1 <= id < t.nextId then 1 else 0
    {
      if step.Allocate? {
        AllocateCensus(s, id);
      } else {
        StepKeeps(s, step, id);
      }
    }
  }

  lemma AllocateCensus(s: State, id: nat)
    requires Conserved(s) && s.caller.Drained?
    ensures Census(Next(s, Allocate), id) == Census(s, id) + if id == s.nextId then 1 else 0
  {
  }

  // ----- The queue -----

  lemma TakeLeavesOthers(rs: seq<Ready>, taken: nat, id: nat)
    requires taken in Ids(rs) && id in Ids(rs) && id != taken
    ensures id in Ids(Take(rs, taken).value.1)
  {
    TakeSplits(rs, taken, id);
    TimesMember(Ids(rs), id);
    TimesMember(Ids(Take(rs, taken).value.1), id);
  }

  lemma RemoveLeavesOthers(ids: seq<nat>, removed: nat, id: nat)
    requires removed in ids && id in ids && id != removed
    ensures id in RemoveFirst(ids, removed)
  {
    RemoveSplits(ids, removed, id);
    TimesMember(ids, id);
    TimesMember(RemoveFirst(ids, removed), id);
  }

  /** After a poll only requests that Metal still holds are queued. */
  lemma CollectQueue(s: State)
    requires QueueSound(s)
    ensures var t := Collect(s);
            && t.handles == t.inFlight && Distinct(t.inFlight)
            && (forall id | id in t.inFlight :: id in t.pending && id in s.inFlight)
  {
    WithoutDistinct(s.inFlight, Ids(s.ready) + s.failed);
  }

  lemma BeginWaitQueue(s: State, id: nat, flush: Option<seq<nat>>)
    requires QueueSound(s)
    requires flush.Some? ==> s.caller == Flushing([id] + flush.value)
    ensures QueueSound(BeginWait(s, id, flush))
  {
    CollectQueue(s);
    hide Collect, Ids;
    var polled := Collect(s);
    var t := BeginWait(s, id, flush);
    assert t.inFlight == polled.inFlight && t.handles == polled.handles && t.pending == polled.pending;
    if Take(s.ready, id).Some? {
      assert id !in polled.inFlight by { CollectRemoves(s, id); }
    }
  }

  lemma CollectRemoves(s: State, id: nat)
    requires id in Ids(s.ready) || id in s.failed
    ensures id !in Collect(s).inFlight
  {
  }

  lemma SpinQueue(s: State, id: nat, flush: Option<seq<nat>>)
    requires QueueSound(s) && s.caller == Waiting(id, flush)
    ensures QueueSound(SpinOnce(s, id, flush))
  {
    hide Take, RemoveFirst, Ids, Distinct;
    var t := SpinOnce(s, id, flush);
    WithoutDistinct(s.inFlight, [id]);
    forall x | x in t.inFlight
      ensures Live(t, x)
    {
      if t.caller != s.caller {
        assert x != id && Live(s, x);
        if id in Ids(s.ready) {
          if x in Ids(s.ready) { TakeLeavesOthers(s.ready, id, x); }
        } else if x in s.failed {
          RemoveLeavesOthers(s.failed, id, x);
        }
      }
    }
  }

  lemma HandlerQueue(s: State, step: Step)
    requires QueueSound(s) && Enabled(s, step) && (step.Fill? || step.Finish? || step.Fail?)
    ensures QueueSound(Next(s, step))
  {
    hide Ids, Distinct;
    var t := Next(s, step);
    if step.Finish? {
      var r := Ready(step.id, s.pending[step.id].pipeline);
      IdsConcat(s.ready, [r]);
      OneId(r);
    }
    forall x | Live(s, x)
      ensures Live(t, x)
    {
    }
  }

  lemma OneId(r: Ready)
    ensures Ids([r]) == [r.id]
  {
    assert [r][1..] == [];
  }

  lemma SubmitQueue(s: State, target: Target)
    requires QueueSound(s) && s.caller.Idle?
    ensures QueueSound(Next(s, Submit(target)))
  {
    CollectQueue(s);
    hide Collect;
    CollectPending(s);
  }

  lemma CollectPending(s: State)
    ensures Collect(s).pending == s.pending
  {
  }

  lemma SendQueue(s: State)
    requires Conserved(s) && QueueSound(s) && s.caller.Missed?
    ensures QueueSound(Next(s, Send))
  {
    hide Ids, Distinct, Times;
    var id := s.caller.id;
    assert Census(s, id) <= 1;
    TimesMember(Ids(s.ready), id);
    TimesMember(s.failed, id);
    assert !Live(s, id);
    var t := Next(s, Send);
    forall x | Live(s, x)
      ensures Live(t, x)
    {
    }
  }

  lemma RecordQueue(s: State)
    requires QueueSound(s) && s.caller.Sent?
    ensures QueueSound(Next(s, Record))
  {
    hide Ids;
  }

  lemma ReportHitQueue(s: State)
    requires QueueSound(s) && s.caller.Hit?
    ensures QueueSound(Next(s, ReportHit))
  {
    hide Ids, Distinct;
    IdsConcat(s.ready, [Ready(s.caller.id, s.caller.pipeline)]);
    forall x | Live(s, x)
      ensures Live(Next(s, ReportHit), x)
    {
    }
  }

  lemma PollQueue(s: State, step: Step)
    requires QueueSound(s) && s.caller.Idle? && (step.Poll? || step.PollFailures? || step.Cancel?)
    ensures QueueSound(Next(s, step))
  {
    hide Ids, Distinct;
    CollectQueue(s);
    WithoutDistinct(s.inFlight, s.failed);
    if step.Cancel? { WithoutDistinct(s.inFlight, [step.id]); }
  }

  lemma OtherQueue(s: State, step: Step)
    requires QueueSound(s) && Enabled(s, step)
    requires step.SetLimit? || step.Allocate? || step.LookUp? || step.Flush? || step.ClearRender? ||
             step.ClearCompute? || step.Insert?
    ensures QueueSound(Next(s, step))
  {
    hide Ids, Distinct;
    var t := Next(s, step);
    assert forall x | x in t.inFlight :: Live(s, x) && Live(t, x);
  }

  lemma QueueStep(s: State, step: Step)
    requires Conserved(s) && QueueSound(s) && Enabled(s, step)
    ensures QueueSound(Next(s, step))
  {
    match step {
      case Submit(target) => SubmitQueue(s, target);
      case ReportHit => ReportHitQueue(s);
      case Send => SendQueue(s);
      case Record => RecordQueue(s);
      case Poll => PollQueue(s, step);
      case PollFailures => PollQueue(s, step);
      case Cancel(_) => PollQueue(s, step);
      case WaitFor(id) => BeginWaitQueue(s, id, None);
      case Spin => SpinQueue(s, s.caller.id, s.caller.flush);
      case FlushNext =>
        if s.caller.rest != [] {
          assert s.caller.rest == [s.caller.rest[0]] + s.caller.rest[1..];
          BeginWaitQueue(s, s.caller.rest[0], Some(s.caller.rest[1..]));
        }
      case Fill(_, _) => HandlerQueue(s, step);
      case Finish(_) => HandlerQueue(s, step);
      case Fail(_) => HandlerQueue(s, step);
      case _ => OtherQueue(s, step);
    }
  }

  // ----- Provenance -----

  /** Both the record of submissions and the record of pipelines only grow. */
  predicate Extends(t: State, s: State) {
    && s.made <= t.made
    && (forall id | id in s.targets :: id in t.targets && t.targets[id] == s.targets[id])
  }

  lemma MadeKept(s: State, t: State, rs: seq<Ready>)
    requires Extends(t, s) && AllMade(s, rs)
    ensures AllMade(t, rs)
  {
    forall r | r in rs
      ensures Made(t, r)
    {
      assert Made(s, r);
    }
  }

  lemma CallerStepProvenance(s: State, step: Step)
    requires Provenance(s) && Enabled(s, step)
    requires step.Allocate? || step.LookUp? || step.ReportHit? || step.Send? || step.Insert? || step.ClearRender? ||
             step.ClearCompute?
    ensures Provenance(Next(s, step))
  {
    hide Ids;
    var t := Next(s, step);
    assert Extends(t, s);
    MadeKept(s, t, s.ready);
    MadeKept(s, t, s.delivered);
    MadeKept(s, t, s.dropped);
  }

  lemma HandlerProvenance(s: State, step: Step)
    requires Provenance(s) && Enabled(s, step) && (step.Fill? || step.Finish? || step.Fail?)
    ensures Provenance(Next(s, step))
  {
    hide Ids;
    var t := Next(s, step);
    assert Extends(t, s);
    MadeKept(s, t, s.ready);
    MadeKept(s, t, s.delivered);
    MadeKept(s, t, s.dropped);
  }

  /** No result appears that was not there before, and nothing else changes. */
  predicate OnlyMoves(s: State, t: State) {
    && t.targets == s.targets && t.made == s.made && t.cache == s.cache && t.pending == s.pending
    && t.nextId == s.nextId && !t.caller.Allocated? && !t.caller.Hit? && !t.caller.Missed?
    && (forall r | r in t.ready :: r in s.ready)
    && (forall r | r in t.delivered :: r in s.ready || r in s.delivered)
    && (forall r | r in t.dropped :: r in s.ready || r in s.dropped)
  }

  lemma MovedProvenance(s: State, t: State)
    requires Provenance(s) && OnlyMoves(s, t)
    ensures Provenance(t)
  {
    forall r | r in t.ready || r in t.delivered || r in t.dropped
      ensures Made(t, r)
    {
      assert Made(s, r);
    }
    assert forall id | id in s.pending && s.pending[id].Filled? :: Made(s, Ready(id, s.pending[id].pipeline));
  }

  lemma BeginWaitMoves(s: State, id: nat, flush: Option<seq<nat>>)
    ensures OnlyMoves(s, BeginWait(s, id, flush))
  {
    hide Ids, Without, Take;
  }

  lemma SpinMoves(s: State, id: nat, flush: Option<seq<nat>>)
    requires s.caller.Waiting?
    ensures OnlyMoves(s, SpinOnce(s, id, flush))
  {
    hide Ids, Without, Take, RemoveFirst;
  }

  lemma MovingProvenance(s: State, step: Step)
    requires Provenance(s) && Enabled(s, step)
    requires step.Submit? || step.Poll? || step.PollFailures? || step.WaitFor? || step.Spin? || step.FlushNext?
    ensures Provenance(Next(s, step))
  {
    hide Ids, Without, BeginWait, SpinOnce, Provenance;
    if step.WaitFor? {
      BeginWaitMoves(s, step.id, None);
    } else if step.Spin? {
      SpinMoves(s, s.caller.id, s.caller.flush);
    } else if step.FlushNext? && s.caller.rest != [] {
      BeginWaitMoves(s, s.caller.rest[0], Some(s.caller.rest[1..]));
    }
    MovedProvenance(s, Next(s, step));
  }

  lemma ProvenanceStep(s: State, step: Step)
    requires Provenance(s) && Enabled(s, step)
    ensures Provenance(Next(s, step))
  {
    match step {
      case SetLimit(_) =>
      case Record =>
      case Cancel(_) =>
      case Flush =>
      case Fill(_, _) => HandlerProvenance(s, step);
      case Finish(_) => HandlerProvenance(s, step);
      case Fail(_) => HandlerProvenance(s, step);
      case Submit(_) => MovingProvenance(s, step);
      case Poll => MovingProvenance(s, step);
      case PollFailures => MovingProvenance(s, step);
      case WaitFor(_) => MovingProvenance(s, step);
      case Spin => MovingProvenance(s, step);
      case FlushNext => MovingProvenance(s, step);
      case _ => CallerStepProvenance(s, step);
    }
  }

  // ----- Every reachable state -----

  lemma InitialInv(limit: nat)
    ensures Inv(Initial(limit))
  {
    forall id: nat
      ensures Census(Initial(limit), id) == 0
    {
    }
  }

  lemma InvStep(s: State, step: Step)
    requires Inv(s) && Enabled(s, step)
    ensures Inv(Next(s, step))
  {
    hide Conserved, QueueSound, Provenance;
    ConservedStep(s, step);
    QueueStep(s, step);
    ProvenanceStep(s, step);
  }

  /** Whatever the caller does and whenever handlers run. */
  lemma {:induction false} InvRun(s: State, steps: seq<Step>)
    requires Inv(s) && Run(s, steps).Some?
    ensures Inv(Run(s, steps).value)
    decreases |steps|
  {
    hide Inv, Next;
    if steps != [] {
      InvStep(s, steps[0]);
      InvRun(Next(s, steps[0]), steps[1..]);
    }
  }
}
