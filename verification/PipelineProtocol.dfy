/**
The asynchronous pipeline compiler as a transition system.

One caller runs the public methods; Metal's completion handlers run on threads
of their own. A step is what happens between two lock operations, so every
interleaving of the two sides is a list of steps.
*/
module PipelineProtocol {
  import opened Wrappers

  datatype Flavour = Render | Compute

  /** A descriptor's cache key; keys of the two caches never meet. */
  datatype Target = Target(flavour: Flavour, key: nat)

  /** An opaque compiled pipeline. */
  type Pipeline = nat

  datatype Ready = Ready(id: nat, pipeline: Pipeline)

  /**
  A request Metal still holds. A successful handler first fills the cache and
  then, under another lock, reports the result.
  */
  datatype Pending = Compiling(target: Target) | Filled(target: Target, pipeline: Pipeline)

  /** Where the caller is inside a public method. */
  datatype Caller =
    | Idle
    | Drained(target: Target)
    | Allocated(target: Target, id: nat)
    | Hit(target: Target, id: nat, pipeline: Pipeline)
    | Missed(target: Target, id: nat)
    | Sent(id: nat)
    | Waiting(id: nat, flush: Option<seq<nat>>)
    | Flushing(rest: seq<nat>)
    | Clearing

  /**
  The compiler's fields, Metal's side (`pending`), and the history of the run:
  what each id was submitted for, every pipeline that was compiled or inserted,
  and what became of every result.
  */
  datatype State = State(
    nextId: nat,
    limit: nat,
    inFlight: seq<nat>,
    handles: seq<nat>,
    ready: seq<Ready>,
    failed: seq<nat>,
    cache: map<Target, Pipeline>,
    pending: map<nat, Pending>,
    caller: Caller,
    targets: map<nat, Target>,
    made: set<(Target, Pipeline)>,
    delivered: seq<Ready>,
    dropped: seq<Ready>,
    reported: seq<nat>,
    lost: seq<nat>)

  datatype Step =
    // the caller
    | SetLimit(limit: nat)
    | Submit(target: Target)
    | Allocate
    | LookUp
    | ReportHit
    | Send
    | Record
    | Poll
    | PollFailures
    | WaitFor(id: nat)
    | Spin
    | Cancel(id: nat)
    | Flush
    | FlushNext
    | ClearRender
    | ClearCompute
    | Insert(target: Target, pipeline: Pipeline)
    // a completion handler
    | Fill(id: nat, pipeline: Pipeline)
    | Finish(id: nat)
    | Fail(id: nat)

  function Initial(limit: nat): State {
    State(1, limit, [], [], [], [], map[], map[], Idle, map[], {}, [], [], [], [])
  }

  // ----- List operations of the source -----

  function Ids(rs: seq<Ready>): (ids: seq<nat>)
    ensures |ids| == |rs|
  {
    if rs == [] then [] else [rs[0].id] + Ids(rs[1..])
  }

  /** `retain(|id| !finished.contains(id))`. */
  function Without(ids: seq<nat>, finished: seq<nat>): (r: seq<nat>)
    ensures forall x :: x in r <==> x in ids && x !in finished
  {
    if ids == [] then []
    else (if ids[0] in finished then [] else [ids[0]]) + Without(ids[1..], finished)
  }

  /** The result with this id and the others, if there is one. */
  function Take(rs: seq<Ready>, id: nat): (r: Option<(Ready, seq<Ready>)>)
    ensures r.None? <==> id !in Ids(rs)
    ensures r.Some? ==> r.value.0.id == id && r.value.0 in rs && forall x | x in r.value.1 :: x in rs
  {
    if rs == [] then None
    else if rs[0].id == id then Some((rs[0], rs[1..]))
    else
      match Take(rs[1..], id)
      case None => None
      case Some((found, others)) => Some((found, [rs[0]] + others))
  }

  // ----- Steps -----

  /** Drop everything that finished from the queue and release its block handles. */
  function Release(s: State, finished: seq<nat>): State {
    s.(inFlight := Without(s.inFlight, finished), handles := Without(s.handles, finished))
  }

  /** `poll`: take results and failures; the failures are not returned to anyone. */
  function Collect(s: State): State {
    Release(s, Ids(s.ready) + s.failed).(ready := [], failed := [], lost := s.lost + s.failed)
  }

  /** The part of `wait_for` before the spin: poll, keep one result, drop the others. */
  function BeginWait(s: State, id: nat, flush: Option<seq<nat>>): State {
    var done := if flush.Some? then Flushing(flush.value) else Idle;
    var polled := Collect(s);
    match Take(s.ready, id)
    case Some((found, others)) =>
      polled.(delivered := s.delivered + [found], dropped := s.dropped + others, caller := done)
    case None =>
      polled.(dropped := s.dropped + s.ready, caller := if id in polled.inFlight then Waiting(id, flush) else done)
  }

  /** One turn of the spin, under the state lock. */
  function SpinOnce(s: State, id: nat, flush: Option<seq<nat>>): State {
    var done := if flush.Some? then Flushing(flush.value) else Idle;
    match Take(s.ready, id)
    case Some((found, others)) =>
      Release(s, [id]).(ready := others, delivered := s.delivered + [found], caller := done)
    case None =>
      if id in s.failed then
        Release(s, [id]).(failed := RemoveFirst(s.failed, id), reported := s.reported + [id], caller := done)
      else s
  }

  function RemoveFirst(ids: seq<nat>, id: nat): seq<nat>
    requires id in ids
  {
    if ids[0] == id then ids[1..] else [ids[0]] + RemoveFirst(ids[1..], id)
  }

  predicate Enabled(s: State, step: Step) {
    match step
    case Allocate => s.caller.Drained?
    case LookUp => s.caller.Allocated?
    case ReportHit => s.caller.Hit?
    case Send => s.caller.Missed?
    case Record => s.caller.Sent?
    case Spin => s.caller.Waiting?
    case FlushNext => s.caller.Flushing?
    case ClearCompute => s.caller.Clearing?
    case Fill(id, _) => id in s.pending && s.pending[id].Compiling?
    case Finish(id) => id in s.pending && s.pending[id].Filled?
    case Fail(id) => id in s.pending && s.pending[id].Compiling?
    case _ => s.caller.Idle?
  }

  function Next(s: State, step: Step): State
    requires Enabled(s, step)
  {
    match step
    case SetLimit(limit) => s.(limit := limit)
    case Submit(target) =>
      (if |s.inFlight| >= s.limit then Collect(s).(dropped := s.dropped + s.ready) else s).(caller := Drained(target))
    case Allocate =>
      s.(nextId := s.nextId + 1, targets := s.targets[s.nextId := s.caller.target],
         caller := Allocated(s.caller.target, s.nextId))
    case LookUp =>
      var t, id := s.caller.target, s.caller.id;
      s.(caller := if t in s.cache then Hit(t, id, s.cache[t]) else Missed(t, id))
    case ReportHit => s.(ready := s.ready + [Ready(s.caller.id, s.caller.pipeline)], caller := Idle)
    case Send => s.(pending := s.pending[s.caller.id := Compiling(s.caller.target)], caller := Sent(s.caller.id))
    case Record => s.(inFlight := s.inFlight + [s.caller.id], handles := s.handles + [s.caller.id], caller := Idle)
    case Poll => Collect(s).(delivered := s.delivered + s.ready)
    case PollFailures => Release(s, s.failed).(failed := [], reported := s.reported + s.failed)
    case WaitFor(id) => BeginWait(s, id, None)
    case Spin => SpinOnce(s, s.caller.id, s.caller.flush)
    case Cancel(id) => if id in s.inFlight then Release(s, [id]) else s
    case Flush => s.(caller := Flushing(s.inFlight))
    case FlushNext =>
      if s.caller.rest == [] then s.(caller := Idle) else BeginWait(s, s.caller.rest[0], Some(s.caller.rest[1..]))
    case ClearRender => s.(cache := map t | t in s.cache && t.flavour != Render :: s.cache[t], caller := Clearing)
    case ClearCompute => s.(cache := map t | t in s.cache && t.flavour != Compute :: s.cache[t], caller := Idle)
    case Insert(target, pipeline) =>
      s.(cache := s.cache[target := pipeline], made := s.made + {(target, pipeline)})
    case Fill(id, pipeline) =>
      var t := s.pending[id].target;
      s.(cache := s.cache[t := pipeline], made := s.made + {(t, pipeline)},
         pending := s.pending[id := Filled(t, pipeline)])
    case Finish(id) => s.(ready := s.ready + [Ready(id, s.pending[id].pipeline)], pending := s.pending - {id})
    case Fail(id) => s.(failed := s.failed + [id], pending := s.pending - {id})
  }

  /** The state after a list of steps; `None` when one of them is not possible. */
  function Run(s: State, steps: seq<Step>): Option<State>
    decreases |steps|
  {
    if steps == [] then Some(s)
    else if !Enabled(s, steps[0]) then None
    else Run(Next(s, steps[0]), steps[1..])
  }
}
