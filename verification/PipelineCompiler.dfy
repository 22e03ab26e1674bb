/**
The pipeline compiler as the object it is: methods that update fields under
locks while completion handlers run. Each method is a sequence of protocol
steps, so `Valid` says that the object is in a reachable state of the protocol
and the theorems about runs apply to it.
*/
module PipelineCompiler {
  import opened Wrappers
  import opened PipelineProtocol
  import PipelineHistory
  import PipelineInvariant
  import PipelineTheorems

  class Compiler {
    var nextId: nat
    var limit: nat
    var inFlight: seq<nat>
    var handles: seq<nat>
    var ready: seq<Ready>
    var failed: seq<nat>
    var cache: map<Target, Pipeline>

    /** Metal: the requests it holds, and what its threads do whenever they get to run. */
    var pending: map<nat, Pending>
    var script: seq<seq<Step>>

    ghost const firstLimit: nat
    ghost var trace: seq<Step>
    ghost var model: State

    ghost predicate Valid()
      reads this
    {
      && Run(Initial(firstLimit), trace) == Some(model)
      && model.nextId == nextId && model.limit == limit && model.inFlight == inFlight && model.handles == handles
      && model.ready == ready && model.failed == failed && model.cache == cache && model.pending == pending
    }

    /** Between two public calls. */
    ghost predicate Quiet()
      reads this
    {
      Valid() && model.caller.Idle?
    }

    /** What handlers never change. */
    twostate predicate CallerSideKept()
      reads this
    {
      && nextId == old(nextId) && limit == old(limit) && inFlight == old(inFlight) && handles == old(handles)
      && model.caller == old(model.caller) && model.targets == old(model.targets)
      && model.delivered == old(model.delivered) && model.dropped == old(model.dropped)
      && model.reported == old(model.reported) && model.lost == old(model.lost)
    }

    constructor (script: seq<seq<Step>>)
      ensures Quiet() && model == Initial(8) && this.script == script
    {
      nextId, limit, inFlight, handles, ready, failed, cache, pending := 1, 8, [], [], [], [], map[], map[];
      this.script := script;
      firstLimit, trace, model := 8, [], Initial(8);
    }

    ghost method Advance(step: Step)
      requires Run(Initial(firstLimit), trace) == Some(model) && Enabled(model, step)
      modifies this`trace, this`model
      ensures model == Next(old(model), step)
      ensures Run(Initial(firstLimit), trace) == Some(model)
    {
      hide Run, Next, Enabled;
      PipelineTheorems.ThenStep(Initial(firstLimit), trace, step);
      trace, model := trace + [step], Next(model, step);
    }

    /** One locked region of a completion block; steps that are not a handler's, or not due, do nothing. */
    method Handle(step: Step)
      requires Valid()
      modifies this`cache, this`ready, this`failed, this`pending, this`trace, this`model
      ensures Valid() && CallerSideKept() && pending.Keys <= old(pending.Keys)
    {
      hide Run;
      match step {
        case Fill(id, pipeline) =>
          if id in pending && pending[id].Compiling? {
            Advance(step);
            var target := pending[id].target;
            cache := cache[target := pipeline];
            pending := pending[id := Filled(target, pipeline)];
          }
        case Finish(id) =>
          if id in pending && pending[id].Filled? {
            Advance(step);
            ready := ready + [Ready(id, pending[id].pipeline)];
            pending := pending - {id};
          }
        case Fail(id) =>
          if id in pending && pending[id].Compiling? {
            Advance(step);
            failed := failed + [id];
            pending := pending - {id};
          }
        case _ =>
      }
    }

    /** A point where the caller holds no lock: Metal's threads may run. */
    method Yield()
      requires Valid()
      modifies this`cache, this`ready, this`failed, this`pending, this`script, this`trace, this`model
      ensures Valid() && CallerSideKept() && pending.Keys <= old(pending.Keys)
      ensures old(script) == [] ==> script == [] && ready == old(ready) && failed == old(failed)
      ensures old(script) != [] ==> script == old(script)[1..]
    {
      if script == [] {
        return;
      }
      var batch := script[0];
      script := script[1..];
      for i := 0 to |batch|
        invariant Valid() && CallerSideKept() && pending.Keys <= old(pending.Keys) && script == old(script)[1..]
      {
        Handle(batch[i]);
      }
    }

    method SetMaxConcurrent(max: nat)
      requires Quiet()
      modifies this`limit, this`trace, this`model
      ensures Quiet() && limit == max
    {
      hide Run;
      Advance(SetLimit(max));
      limit := max;
    }

    /** `release_finished`: both lists lose exactly the finished ids, so handles that followed the queue still do. */
    method ReleaseFinished(finished: seq<nat>)
      modifies this`inFlight, this`handles
      ensures inFlight == Without(old(inFlight), finished) && handles == Without(old(handles), finished)
      ensures forall id | id in finished :: id !in inFlight && id !in handles
      ensures forall id | id !in finished ::
                (id in inFlight <==> id in old(inFlight)) && (id in handles <==> id in old(handles))
      ensures old(handles) == old(inFlight) ==> handles == inFlight
      ensures PipelineInvariant.Distinct(old(inFlight)) ==> PipelineInvariant.Distinct(inFlight)
    {
      if PipelineInvariant.Distinct(inFlight) {
        PipelineInvariant.WithoutDistinct(inFlight, finished);
      }
      inFlight := Retain(inFlight, finished);
      handles := Retain(handles, finished);
    }

    static method Retain(ids: seq<nat>, finished: seq<nat>) returns (kept: seq<nat>)
      ensures kept == Without(ids, finished)
    {
      kept := [];
      for i := |ids| downto 0
        invariant kept == Without(ids[i..], finished)
      {
        assert ids[i..][1..] == ids[i + 1..];
        if ids[i] !in finished {
          kept := [ids[i]] + kept;
        }
      }
      assert ids[0..] == ids;
    }

    /** The body of `poll`, before anyone decides what becomes of the results. */
    method Drain() returns (results: seq<Ready>)
      modifies this`ready, this`failed, this`inFlight, this`handles
      ensures results == old(ready) && ready == [] && failed == []
      ensures inFlight == Without(old(inFlight), Ids(old(ready)) + old(failed))
      ensures handles == Without(old(handles), Ids(old(ready)) + old(failed))
    {
      var failures := failed;
      results := ready;
      ready, failed := [], [];
      ReleaseFinished(Ids(results) + failures);
    }

    /** Submission, first lock: make room when the soft limit is reached. */
    method MakeRoom(target: Target)
      requires Quiet()
      modifies this
      ensures Valid() && model.caller == Drained(target)
      ensures nextId == old(nextId) && model.delivered == old(model.delivered)
    {
      hide Run, Without, Ids;
      Yield();
      var full := |inFlight| >= limit;
      Advance(Submit(target));
      if full {
        var discarded := Drain();
      }
    }

    /** Second lock: take the next request id. */
    method AllocateId(ghost target: Target) returns (id: nat)
      requires Valid() && model.caller == Drained(target)
      modifies this
      ensures Valid() && model.caller == Allocated(target, id)
      ensures id == old(nextId) && nextId == id + 1 && id in model.targets && model.targets[id] == target
      ensures model.delivered == old(model.delivered)
    {
      hide Run, Without, Ids;
      Yield();
      Advance(Allocate);
      id := nextId;
      nextId := nextId + 1;
    }

    /** Third lock: a cached pipeline answers the request at once. */
    method LookUpCache(target: Target, ghost id: nat) returns (cached: Option<Pipeline>)
      requires Valid() && model.caller == Allocated(target, id)
      modifies this
      ensures Valid()
      ensures model.caller == if cached.Some? then Hit(target, id, cached.value) else Missed(target, id)
      ensures nextId == old(nextId) && model.targets == old(model.targets) && model.delivered == old(model.delivered)
    {
      hide Run, Without, Ids;
      Yield();
      Advance(LookUp);
      cached := if target in cache then Some(cache[target]) else None;
    }

    method AnswerFromCache(ghost target: Target, id: nat, cached: Pipeline)
      requires Valid() && model.caller == Hit(target, id, cached)
      modifies this
      ensures Quiet()
      ensures nextId == old(nextId) && model.targets == old(model.targets) && model.delivered == old(model.delivered)
    {
      hide Run, Without, Ids;
      Yield();
      Advance(ReportHit);
      ready := ready + [Ready(id, cached)];
    }

    /** Hand the request to Metal; its handler may run before the request is queued. */
    method HandToMetal(target: Target, id: nat)
      requires Valid() && model.caller == Missed(target, id)
      modifies this
      ensures Valid() && model.caller == Sent(id)
      ensures nextId == old(nextId) && model.targets == old(model.targets) && model.delivered == old(model.delivered)
    {
      hide Run, Without, Ids;
      Yield();
      Advance(Send);
      pending := pending[id := Compiling(target)];
    }

    method Enqueue(id: nat)
      requires Valid() && model.caller == Sent(id)
      modifies this
      ensures Quiet()
      ensures nextId == old(nextId) && model.targets == old(model.targets) && model.delivered == old(model.delivered)
    {
      hide Run, Without, Ids;
      Yield();
      Advance(Record);
      handles := handles + [id];
      inFlight := inFlight + [id];
    }

    /** `submit_render` and `submit_compute`: they differ in the cache they use. */
    method SubmitPipeline(target: Target) returns (id: nat)
      requires Quiet()
      modifies this
      ensures Quiet()
      ensures id == old(nextId) && nextId == id + 1
      ensures id in model.targets && model.targets[id] == target
      ensures model.delivered == old(model.delivered)
    {
      hide Run;
      MakeRoom(target);
      id := AllocateId(target);
      var cached := LookUpCache(target, id);
      if cached.Some? {
        AnswerFromCache(target, id, cached.value);
        return;
      }
      HandToMetal(target, id);
      Enqueue(id);
    }

    method PollReady() returns (results: seq<Ready>)
      requires Quiet()
      modifies this
      ensures Quiet() && ready == [] && failed == []
      ensures model.delivered == old(model.delivered) + results && model.dropped == old(model.dropped)
      ensures forall id | id in inFlight :: id in pending && id in old(inFlight)
    {
      hide Run, Without, Ids;
      Yield();
      ghost var before := model;
      Advance(Poll);
      results := Drain();
      assert PipelineTheorems.Reachable(before);
      PipelineTheorems.ReachableInv(before);
      PipelineInvariant.CollectQueue(before);
    }

    method CollectFailures() returns (failures: seq<nat>)
      requires Quiet()
      modifies this
      ensures Quiet() && failed == [] && model.reported == old(model.reported) + failures
      ensures model.delivered == old(model.delivered)
    {
      hide Run, Without, Ids;
      Yield();
      Advance(PollFailures);
      failures := failed;
      failed := [];
      ReleaseFinished(failures);
    }

    method CancelRequest(id: nat) returns (found: bool)
      requires Quiet()
      modifies this`inFlight, this`handles, this`trace, this`model
      ensures Quiet() && (found <==> id in old(inFlight)) && id !in inFlight
      ensures forall x | x != id :: x in inFlight <==> x in old(inFlight)
    {
      hide Run, Without, Ids, Take, RemoveFirst;
      Advance(Cancel(id));
      found := id in inFlight;
      if found {
        ReleaseFinished([id]);
      }
    }

    /**
    `wait_for`, alone or as one turn of `flush`. `spinning` means that Metal's
    threads will never run again: the source would spin for ever.
    */
    method Wait(id: nat, ghost flush: Option<seq<nat>>) returns (result: Option<Pipeline>, spinning: bool)
      requires Valid()
      requires flush.None? ==> model.caller.Idle?
      requires flush.Some? ==> model.caller == Flushing([id] + flush.value)
      modifies this
      ensures Valid()
      ensures !spinning ==> model.caller == if flush.Some? then Flushing(flush.value) else Idle
      ensures spinning ==> result.None? && id in pending && script == []
      ensures model.delivered == old(model.delivered) + if result.Some? then [Ready(id, result.value)] else []
      ensures limit == old(limit)
    {
      hide Run, Ids, Without, RemoveFirst;
      Yield();
      Advance(if flush.Some? then FlushNext else WaitFor(id));
      var found := Take(ready, id);
      var discarded := Drain();
      if found.Some? {
        return Some(found.value.0.pipeline), false;
      }
      if id !in inFlight {
        return None, false;
      }
      result, spinning := SpinFor(id, flush);
    }

    /** The spin: each turn takes the state lock once. */
    method SpinFor(id: nat, ghost flush: Option<seq<nat>>) returns (result: Option<Pipeline>, spinning: bool)
      requires Valid() && model.caller == Waiting(id, flush)
      modifies this
      ensures Valid()
      ensures !spinning ==> model.caller == if flush.Some? then Flushing(flush.value) else Idle
      ensures spinning ==> result.None? && id in pending && script == []
      ensures model.delivered == old(model.delivered) + if result.Some? then [Ready(id, result.value)] else []
      ensures limit == old(limit)
    {
      hide Run, Ids, Without, RemoveFirst;
      while true
        invariant Valid() && model.caller == Waiting(id, flush) && model.delivered == old(model.delivered)
        invariant limit == old(limit)
        decreases |script|
      {
        var last := script == [];
        Yield();
        var found := Take(ready, id);
        if found.None? && id !in failed && last {
          assert PipelineTheorems.Reachable(model);
          PipelineTheorems.HandlesFollowQueue(model);
          PipelineTheorems.ReachableInv(model);
          return None, true;
        }
        if found.Some? || id in failed {
          result := TakeOutcome(id, flush);
          return result, false;
        }
      }
    }

    /** The locked body of a turn that finds an outcome. */
    method TakeOutcome(id: nat, ghost flush: Option<seq<nat>>) returns (result: Option<Pipeline>)
      requires Valid() && model.caller == Waiting(id, flush) && (Take(ready, id).Some? || id in failed)
      modifies this`ready, this`failed, this`inFlight, this`handles, this`trace, this`model
      ensures Valid() && model.caller == if flush.Some? then Flushing(flush.value) else Idle
      ensures model.delivered == old(model.delivered) + if result.Some? then [Ready(id, result.value)] else []
    {
      hide Run, Ids, Without, RemoveFirst;
      Advance(Spin);
      var found := Take(ready, id);
      if found.Some? {
        ready := found.value.1;
        ReleaseFinished([id]);
        return Some(found.value.0.pipeline);
      }
      failed := RemoveFirst(failed, id);
      ReleaseFinished([id]);
      return None;
    }

    method WaitForPipeline(id: nat) returns (result: Option<Pipeline>, spinning: bool)
      requires Quiet()
      modifies this
      ensures Valid() && (!spinning ==> Quiet())
      ensures spinning ==> result.None? && id in pending && script == []
      ensures model.delivered == old(model.delivered) + if result.Some? then [Ready(id, result.value)] else []
    {
      result, spinning := Wait(id, None);
    }

    /** `flush`: if it returns, the queue is empty. */
    method FlushQueue() returns (results: seq<Ready>, spinning: bool)
      requires Quiet()
      modifies this
      ensures Valid()
      ensures !spinning ==> Quiet() && inFlight == [] && handles == []
      ensures spinning ==> pending != map[] && script == []
      ensures model.delivered == old(model.delivered) + results
    {
      hide Run, Next;
      var ids := inFlight;
      Advance(Flush);
      FlushBegins();
      results, spinning := [], false;
      var i := 0;
      assert ids[0..] == ids;
      while i < |ids|
        invariant 0 <= i <= |ids|
        invariant Valid() && model.caller == Flushing(ids[i..])
        invariant model.delivered == old(model.delivered) + results
      {
        assert ids[i..] == [ids[i]] + ids[i + 1..];
        var state, stuck := Wait(ids[i], Some(ids[i + 1..]));
        if stuck {
          return results, true;
        }
        if state.Some? {
          results := results + [Ready(ids[i], state.value)];
        }
        i := i + 1;
      }
      assert PipelineTheorems.Reachable(model);
      PipelineTheorems.FlushEmptiesQueue(model);
      Advance(FlushNext);
      FlushEnds();
    }

    twostate lemma FlushBegins()
      requires old(model.caller.Idle?) && model == Next(old(model), Flush)
      ensures model == old(model).(caller := Flushing(old(model.inFlight)))
    {
    }

    twostate lemma FlushEnds()
      ensures forall s: State | s.caller == Flushing([]) :: Next(s, FlushNext) == s.(caller := Idle)
    {
    }

    method ClearRenderCache()
      requires Quiet()
      modifies this
      ensures Valid() && model.caller == Clearing && model.delivered == old(model.delivered)
    {
      hide Run, Ids, Without;
      Yield();
      Advance(ClearRender);
      cache := map t | t in cache && t.flavour != Render :: cache[t];
    }

    method ClearComputeCache()
      requires Valid() && model.caller == Clearing
      modifies this
      ensures Quiet() && model.delivered == old(model.delivered)
      ensures forall t | t in cache :: t.flavour == Render
    {
      hide Run, Ids, Without;
      Yield();
      Advance(ClearCompute);
      cache := map t | t in cache && t.flavour != Compute :: cache[t];
    }

    /** The two caches are cleared under two locks: a handler may refill the first in between. */
    method ClearCache()
      requires Quiet()
      modifies this
      ensures Quiet() && model.delivered == old(model.delivered)
      ensures forall t | t in cache :: t.flavour == Render
    {
      ClearRenderCache();
      ClearComputeCache();
    }

    method CachePipeline(target: Target, pipeline: Pipeline)
      requires Quiet()
      modifies this
      ensures Quiet() && target in cache && cache[target] == pipeline
    {
      hide Run, Ids, Without;
      Yield();
      Advance(Insert(target, pipeline));
      cache := cache[target := pipeline];
    }

    /**
    A hit if and only if a compilation or insertion for the key came after the last
    clearing of its cache, and then the latest of them.
    */
    method GetCached(target: Target) returns (hit: Option<Pipeline>)
      requires Quiet()
      ensures hit.Some? <==> PipelineHistory.Stored(trace, model.targets, target)
      ensures forall i: nat | PipelineHistory.Latest(trace, model.targets, target, i) :: hit == Some(trace[i].pipeline)
      ensures hit.Some? ==>
                exists i :: 0 <= i < |trace| && PipelineTheorems.Origin(trace[i], model, target, hit.value)
    {
      PipelineHistory.CacheExactly(firstLimit, trace, target);
      if target in cache {
        PipelineTheorems.CacheAndResultsSound(firstLimit, trace, target, cache[target]);
        return Some(cache[target]);
      }
      return None;
    }
  }
}
