/** What a flush returns and what it drops, however the handlers interleave with it. */
module PipelineFlush {
  import opened Wrappers
  import opened PipelineProtocol
  import opened PipelineInvariant
  import opened PipelineTheorems
  import opened PipelineFates

  /** The steps that happen while a flush is under way. */
  predicate FlushMove(step: Step) {
    step.FlushNext? || step.Spin? || step.Fill? || step.Finish? || step.Fail?
  }

  predicate FlushMoves(steps: seq<Step>) {
    forall step | step in steps :: FlushMove(step)
  }

  /** A flush of `s` interleaved with handlers, up to any point. */
  predicate FlushRun(s: State, steps: seq<Step>) {
    s.caller.Idle? && FlushMoves(steps) && Run(Next(s, Flush), steps).Some?
  }

  function After(s: State, steps: seq<Step>): State
    requires FlushRun(s, steps)
  {
    Run(Next(s, Flush), steps).value
  }

  // ----- Nothing is dropped -----

  /** Every outcome that is out or ready belongs to one request. */
  predicate OnlyFrom(t: State, first: nat) {
    (forall id | id in t.pending :: id == first) && (forall r | r in t.ready :: r.id == first)
  }

  /** The flush has not got past its first request. */
  predicate AtFirst(t: State, first: nat) {
    && first in t.inFlight
    && ((t.caller.Flushing? && t.caller.rest != [] && t.caller.rest[0] == first) ||
        (t.caller.Waiting? && t.caller.id == first))
  }

  predicate Clean(t: State, first: nat) {
    OnlyFrom(t, first) && (AtFirst(t, first) || (t.pending == map[] && t.ready == []))
  }

  lemma FirstIsReady(t: State, first: nat)
    requires Inv(t) && OnlyFrom(t, first)
    ensures first in Ids(t.ready) ==>
              Take(t.ready, first).Some? && Take(t.ready, first).value.1 == [] && t.pending == map[]
    ensures first !in Ids(t.ready) ==> t.ready == []
    ensures first in t.failed ==> t.pending == map[] && t.ready == []
  {
    OnePlace(t, first);
    if first in Ids(t.ready) {
      TakenOnce(t, first);
    }
    hide Inv, Take;
    if t.ready != [] {
      assert t.ready[0] in t.ready;
      IdsMember(t.ready, first);
    }
    if first !in t.pending {
      assert t.pending.Keys == {};
      assert t.pending == map[];
    }
  }

  lemma CleanBeginWait(t: State, first: nat)
    requires Inv(t) && Clean(t, first) && t.caller.Flushing? && t.caller.rest != []
    ensures var n := Next(t, FlushNext); Clean(n, first) && n.dropped == t.dropped
  {
    hide Inv, Ids, Take, BeginWait;
    var rest := Some(t.caller.rest[1..]);
    if AtFirst(t, first) {
      FirstWait(t, first, rest);
    } else {
      LaterWait(t, t.caller.rest[0], rest);
    }
  }

  lemma FirstWait(t: State, first: nat, rest: Option<seq<nat>>)
    requires Inv(t) && OnlyFrom(t, first) && first in t.inFlight
    ensures var n := BeginWait(t, first, rest);
            && n.dropped == t.dropped && n.ready == [] && n.pending == t.pending
            && (n.pending == map[] || (n.caller == Waiting(first, rest) && first in n.inFlight))
  {
    FirstIsReady(t, first);
    OnePlace(t, first);
    hide Inv, Ids, Take, OnlyFrom;
    assert t.dropped + [] == t.dropped;
    assert t.pending != map[] ==> first !in Ids(t.ready) && first !in t.failed;
  }

  lemma LaterWait(t: State, id: nat, rest: Option<seq<nat>>)
    requires t.ready == []
    ensures var n := BeginWait(t, id, rest); n.dropped == t.dropped && n.ready == [] && n.pending == t.pending
  {
    EmptyTake(id);
    hide Ids, Take, Without;
    assert t.dropped + [] == t.dropped;
  }

  lemma EmptyTake(id: nat)
    ensures Take([], id).None?
  {
  }

  lemma CleanSpin(t: State, first: nat)
    requires Inv(t) && Clean(t, first) && t.caller.Waiting?
    ensures var n := Next(t, Spin); Clean(n, first) && n.dropped == t.dropped
  {
    FirstIsReady(t, first);
    hide Inv, Ids, Take, RemoveFirst;
    EmptyTake(t.caller.id);
  }

  lemma CleanHandler(t: State, step: Step, first: nat)
    requires Clean(t, first) && Enabled(t, step) && (step.Fill? || step.Finish? || step.Fail?)
    ensures var n := Next(t, step); Clean(n, first) && n.dropped == t.dropped
  {
  }

  lemma CleanStep(t: State, step: Step, first: nat)
    requires Inv(t) && Clean(t, first) && Enabled(t, step) && FlushMove(step)
    ensures var n := Next(t, step); Clean(n, first) && n.dropped == t.dropped
  {
    match step {
      case FlushNext => if t.caller.rest != [] { CleanBeginWait(t, first); }
      case Spin => CleanSpin(t, first);
      case _ => CleanHandler(t, step, first);
    }
  }

  lemma {:induction false} CleanRun(t: State, steps: seq<Step>, first: nat)
    requires Inv(t) && Clean(t, first) && FlushMoves(steps) && Run(t, steps).Some?
    ensures Run(t, steps).value.dropped == t.dropped
    decreases |steps|
  {
    hide Inv, Clean, Next, Enabled, FlushMove;
    if steps != [] {
      CleanStep(t, steps[0], first);
      InvStep(t, steps[0]);
      CleanRun(Next(t, steps[0]), steps[1..], first);
    }
  }

  // ----- Something is dropped -----

  /** Another request's result is dropped by the first wait. */
  lemma DropsReady(t: State, other: nat)
    requires Inv(t) && t.caller.Flushing? && t.caller.rest != [] && other in Ids(t.ready) && other != t.caller.rest[0]
    ensures Next(t, FlushNext).dropped != t.dropped
  {
    hide Inv, Next;
    ResultStep(t, FlushNext, other);
    var n := Next(t, FlushNext);
    OnePlace(t, other);
  }

  /** A run in which another request finishes before the first wait. */
  lemma DroppingRun(t: State, other: nat) returns (steps: seq<Step>)
    requires Inv(t) && t.caller.Flushing? && t.caller.rest != [] && other != t.caller.rest[0]
    requires other in t.pending || other in Ids(t.ready)
    ensures FlushMoves(steps) && Run(t, steps).Some? && Run(t, steps).value.dropped != t.dropped
  {
    hide Run, Inv, Ids;
    steps := [];
    var u := t;
    NoSteps(t);
    if other in u.pending && u.pending[other].Compiling? {
      InvStep(u, Fill(other, 0));
      ThenStep(t, steps, Fill(other, 0));
      steps, u := steps + [Fill(other, 0)], Next(u, Fill(other, 0));
    }
    if other in u.pending {
      InvStep(u, Finish(other));
      ThenStep(t, steps, Finish(other));
      FinishedIsReady(u, other);
      steps, u := steps + [Finish(other)], Next(u, Finish(other));
    }
    DropsReady(u, other);
    ThenStep(t, steps, FlushNext);
    steps := steps + [FlushNext];
  }

  /**
  No interleaving of a flush with the handlers drops a result if and only if
  nothing is queued, or the first queued request is the only one that is ready
  or still with Metal, cancelled ones included.
  */
  lemma FlushLosesNothingExactly(s: State)
    requires Reachable(s) && s.caller.Idle?
    ensures (forall steps | FlushRun(s, steps) :: After(s, steps).dropped == s.dropped) <==>
            s.inFlight == [] || OnlyFrom(s, s.inFlight[0])
  {
    ReachableInv(s);
    InvStep(s, Flush);
    var f := Next(s, Flush);
    assert f == s.(caller := Flushing(s.inFlight));
    if s.inFlight == [] {
      forall steps | FlushRun(s, steps)
        ensures After(s, steps).dropped == s.dropped
      {
        NothingQueued(f, steps);
      }
    } else if OnlyFrom(s, s.inFlight[0]) {
      forall steps | FlushRun(s, steps)
        ensures After(s, steps).dropped == s.dropped
      {
        CleanRun(f, steps, s.inFlight[0]);
      }
    } else {
      hide Inv, Run;
      var other := Another(s, s.inFlight[0]);
      var steps := DroppingRun(f, other);
      assert FlushRun(s, steps) && After(s, steps).dropped != s.dropped;
    }
  }

  lemma Another(s: State, first: nat) returns (other: nat)
    requires !OnlyFrom(s, first)
    ensures other != first && (other in s.pending || other in Ids(s.ready))
  {
    if id :| id in s.pending && id != first {
      other := id;
    } else {
      var r :| r in s.ready && r.id != first;
      other := r.id;
      IdsMember(s.ready, other);
    }
  }

  /** A flush of an empty queue never waits. */
  lemma {:induction false} NothingQueued(t: State, steps: seq<Step>)
    requires (t.caller == Flushing([]) || t.caller.Idle?) && FlushMoves(steps) && Run(t, steps).Some?
    ensures Run(t, steps).value.dropped == t.dropped
    decreases |steps|
  {
    if steps != [] {
      assert FlushMove(steps[0]);
      NothingQueued(Next(t, steps[0]), steps[1..]);
    }
  }

  // ----- What a flush returns -----

  /** What is left of the queue that the flush started with. */
  function Todo(t: State): seq<nat> {
    if t.caller.Flushing? then t.caller.rest
    else if t.caller.Waiting? && t.caller.flush.Some? then [t.caller.id] + t.caller.flush.value
    else []
  }

  predicate Subsequence(a: seq<nat>, b: seq<nat>)
    decreases |b|
  {
    a == [] || (b != [] && ((a[0] == b[0] && Subsequence(a[1..], b[1..])) || Subsequence(a, b[1..])))
  }

  lemma {:induction false} Itself(a: seq<nat>)
    ensures Subsequence(a, a)
  {
    if a != [] {
      Itself(a[1..]);
    }
  }

  lemma {:induction false} Skipping(a: seq<nat>, skipped: nat, c: seq<nat>, b: seq<nat>)
    requires Subsequence(a + [skipped] + c, b)
    ensures Subsequence(a + c, b)
    decreases |b|
  {
    var all := a + [skipped] + c;
    if a == [] {
      assert all[1..] == c && a + c == c;
      if !(all[0] == b[0] && Subsequence(c, b[1..])) {
        Skipping(a, skipped, c, b[1..]);
      } else {
        Later(c, b);
      }
    } else {
      assert all[1..] == a[1..] + [skipped] + c && (a + c)[1..] == a[1..] + c && (a + c)[0] == all[0];
      if all[0] == b[0] && Subsequence(all[1..], b[1..]) {
        Skipping(a[1..], skipped, c, b[1..]);
      } else {
        Skipping(a, skipped, c, b[1..]);
      }
    }
  }

  lemma Later(a: seq<nat>, b: seq<nat>)
    requires b != [] && Subsequence(a, b[1..])
    ensures Subsequence(a, b)
  {
  }

  predicate InOrder(before: nat, t: State, queue: seq<nat>) {
    before <= |t.delivered| && Subsequence(Ids(t.delivered[before..]) + Todo(t), queue)
  }

  predicate HandsOut(t: State, n: State, id: nat) {
    |n.delivered| == |t.delivered| + 1 && n.delivered[..|t.delivered|] == t.delivered &&
    n.delivered[|t.delivered|].id == id
  }

  predicate MovesOn(t: State, n: State) {
    || (n.delivered == t.delivered && Todo(n) == Todo(t))
    || (Todo(t) != [] && Todo(n) == Todo(t)[1..] && (n.delivered == t.delivered || HandsOut(t, n, Todo(t)[0])))
  }

  /** A flush step hands out the id at the front of what is left, skips it, or waits for it. */
  lemma FlushMoveTodo(t: State, step: Step)
    requires Enabled(t, step) && FlushMove(step) && (InFlush(t) || t.caller.Idle?)
    ensures var n := Next(t, step);
            (InFlush(n) || n.caller.Idle?) && MovesOn(t, n)
  {
    hide Ids, Without, Take, RemoveFirst;
    if step.FlushNext? && t.caller.rest != [] {
      WaitTodo(t, t.caller.rest[0], t.caller.rest[1..]);
    } else if step.Spin? {
      SpinTodo(t, t.caller.id, t.caller.flush.value);
    }
  }

  lemma WaitTodo(t: State, id: nat, rest: seq<nat>)
    ensures var n := BeginWait(t, id, Some(rest));
            || (n.delivered == t.delivered && (n.caller == Waiting(id, Some(rest)) || n.caller == Flushing(rest)))
            || (n.caller == Flushing(rest) && HandsOut(t, n, id))
  {
    hide Ids, Without, Take;
    if Take(t.ready, id).Some? {
      var found := Take(t.ready, id).value.0;
      assert found.id == id && BeginWait(t, id, Some(rest)).delivered == t.delivered + [found];
    }
  }

  lemma SpinTodo(t: State, id: nat, rest: seq<nat>)
    requires t.caller == Waiting(id, Some(rest))
    ensures var n := SpinOnce(t, id, Some(rest));
            || (n.delivered == t.delivered && (n.caller == t.caller || n.caller == Flushing(rest)))
            || (n.caller == Flushing(rest) && HandsOut(t, n, id))
  {
    hide Ids, Without, Take, RemoveFirst;
    if Take(t.ready, id).Some? {
      var found := Take(t.ready, id).value.0;
      assert found.id == id && SpinOnce(t, id, Some(rest)).delivered == t.delivered + [found];
    }
  }

  lemma InOrderStep(before: nat, t: State, step: Step, queue: seq<nat>)
    requires Enabled(t, step) && FlushMove(step) && (InFlush(t) || t.caller.Idle?) && InOrder(before, t, queue)
    ensures InOrder(before, Next(t, step), queue)
  {
    hide Next, Ids, Todo, Subsequence;
    FlushMoveTodo(t, step);
    var n, out := Next(t, step), Ids(t.delivered[before..]);
    if Todo(n) != Todo(t) {
      var id, rest := Todo(t)[0], Todo(t)[1..];
      assert out + Todo(t) == out + [id] + rest;
      if n.delivered == t.delivered {
        Skipping(out, id, rest, queue);
      } else {
        var r := n.delivered[|t.delivered|];
        assert n.delivered[before..] == t.delivered[before..] + [r];
        IdsConcat(t.delivered[before..], [r]);
        assert Ids([r]) == [id] by { OneId(r); }
      }
    }
  }

  lemma {:induction false} InOrderRun(before: nat, t: State, steps: seq<Step>, queue: seq<nat>)
    requires FlushMoves(steps) && Run(t, steps).Some? && (InFlush(t) || t.caller.Idle?) && InOrder(before, t, queue)
    ensures InOrder(before, Run(t, steps).value, queue)
    decreases |steps|
  {
    hide InOrder, Next, Enabled, FlushMove;
    if steps != [] {
      InOrderStep(before, t, steps[0], queue);
      FlushMoveTodo(t, steps[0]);
      InOrderRun(before, Next(t, steps[0]), steps[1..], queue);
    }
  }

  lemma {:induction false} FrontOf(a: seq<nat>, rest: seq<nat>, b: seq<nat>)
    requires Subsequence(a + rest, b)
    ensures Subsequence(a, b)
    decreases |rest|
  {
    if rest == [] {
      assert a + rest == a;
    } else {
      assert a + rest == a + [rest[0]] + rest[1..];
      Skipping(a, rest[0], rest[1..], b);
      FrontOf(a, rest[1..], b);
    }
  }

  /**
  A flush hands out results of queued requests only, each once and in queue order, at
  every point of every interleaving.
  */
  lemma FlushReturnsInOrder(s: State, steps: seq<Step>)
    requires FlushRun(s, steps)
    ensures s.delivered <= After(s, steps).delivered
    ensures Subsequence(Ids(After(s, steps).delivered[|s.delivered|..]), s.inFlight)
  {
    var f, t := Next(s, Flush), After(s, steps);
    assert f == s.(caller := Flushing(s.inFlight)) && f.delivered[|s.delivered|..] == [] && Ids([]) == [];
    Itself(s.inFlight);
    assert [] + Todo(f) == s.inFlight;
    hide Ids, Todo, Subsequence, Run, Next;
    InOrderRun(|s.delivered|, f, steps, s.inFlight);
    HistoryGrowsOver(f, steps);
    FrontOf(Ids(t.delivered[|s.delivered|..]), Todo(t), s.inFlight);
  }

  // ----- The first request -----

  predicate Answered(t: State, id: nat) {
    id in Ids(t.delivered) || id in t.reported || id in t.lost
  }

  lemma FirstStep(t: State, step: Step, first: nat)
    requires Inv(t) && Enabled(t, step) && FlushMove(step)
    requires AtFirst(t, first) || Answered(t, first)
    ensures AtFirst(Next(t, step), first) || Answered(Next(t, step), first)
  {
    hide Inv, Ids, Without, Take, RemoveFirst;
    if Answered(t, first) {
      AnsweredStays(t, step, first);
    } else if first in Ids(t.ready) && (step.FlushNext? || step.Spin?) {
      ResultStep(t, step, first);
    } else if first in t.failed && (step.FlushNext? || step.Spin?) {
      FailureStep(t, step, first);
    }
  }

  lemma AnsweredStays(t: State, step: Step, id: nat)
    requires Enabled(t, step) && Answered(t, id)
    ensures Answered(Next(t, step), id)
  {
    hide Ids, Next;
    HistoryGrows(t, step);
    if id in Ids(t.delivered) {
      IdsPrefix(t.delivered, Next(t, step).delivered, id);
    }
  }

  lemma {:induction false} FirstOver(t: State, steps: seq<Step>, first: nat)
    requires Inv(t) && FlushMoves(steps) && Run(t, steps).Some? && (AtFirst(t, first) || Answered(t, first))
    ensures AtFirst(Run(t, steps).value, first) || Answered(Run(t, steps).value, first)
    decreases |steps|
  {
    hide Inv, AtFirst, Answered, Next, Enabled, FlushMove;
    if steps != [] {
      FirstStep(t, steps[0], first);
      InvStep(t, steps[0]);
      FirstOver(Next(t, steps[0]), steps[1..], first);
    }
  }

  /**
  However a flush runs, once it is past its first request that one has been delivered or
  has failed: it is never dropped.
  */
  lemma FlushAnswersFirst(s: State, steps: seq<Step>)
    requires Reachable(s) && FlushRun(s, steps) && s.inFlight != []
    ensures var t, first := After(s, steps), s.inFlight[0];
            && (AtFirst(t, first) || Answered(t, first))
            && first !in Ids(t.dropped)
            && (t.caller.Idle? ==> Answered(t, first))
  {
    hide Inv, Run, Ids;
    ReachableInv(s);
    InvStep(s, Flush);
    var f, first := Next(s, Flush), s.inFlight[0];
    FirstOver(f, steps, first);
    InvRun(f, steps);
    var t := After(s, steps);
    OnePlace(t, first);
    if AtFirst(t, first) {
      assert Live(t, first) by { QueuedIsLive(t, first); }
    }
  }

  lemma QueuedIsLive(t: State, id: nat)
    requires Inv(t) && id in t.inFlight
    ensures Live(t, id)
  {
  }
}
