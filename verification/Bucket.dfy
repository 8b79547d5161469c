/**
 The leaky bucket (middlewares/bucket/bucket.go) as a protocol: `size` workers that take
 requests from one unbuffered channel, callers that wait for an answer or time out, and
 the goroutines that a timeout leaves behind to take the answer.

 A step is one channel rendezvous or one event of a single goroutine, so any number of
 callers and any schedule is a sequence of steps.
 */
module Bucket {
  /** Blocked on the channel, running the handler of a request, or sending its answer. */
  datatype Worker = Idle | Serving(req: nat) | Handing(req: nat) {
    predicate Busy() {
      !Idle?
    }
  }

  /** A call of ServeHTTP: before the rendezvous, in the select, or returned. */
  datatype Caller = Sending | Waiting | Served | TimedOut

  /** Requests are numbered; `started` lists them in the order their handlers were started. */
  datatype State = State(workers: seq<Worker>, callers: map<nat, Caller>, drains: set<nat>, started: seq<nat>)

  datatype Step =
    | Arrive(req: nat)             // ServeHTTP is called
    | Accept(worker: nat, req: nat)
    | Finish(worker: nat)          // the handler returns
    | Deliver(worker: nat)         // resp to the caller
    | Timeout(req: nat)            // the caller writes 503 and leaves a drain behind
    | Drain(worker: nat)           // resp to the drain

  function NewBucket(size: nat): State {
    State(seq(size, _ => Idle), map[], {}, [])
  }

  predicate Is(s: State, req: nat, c: Caller) {
    req in s.callers && s.callers[req] == c
  }

  predicate Enabled(s: State, step: Step) {
    match step
    case Arrive(req) => req !in s.callers
    case Accept(w, req) => w < |s.workers| && s.workers[w].Idle? && Is(s, req, Sending)
    case Finish(w) => w < |s.workers| && s.workers[w].Serving?
    case Deliver(w) => w < |s.workers| && s.workers[w].Handing? && Is(s, s.workers[w].req, Waiting)
    case Timeout(req) => Is(s, req, Waiting)
    case Drain(w) => w < |s.workers| && s.workers[w].Handing? && s.workers[w].req in s.drains
  }

  function Next(s: State, step: Step): State
    requires Enabled(s, step)
  {
    match step
    case Arrive(req) => s.(callers := s.callers[req := Sending])
    case Accept(w, req) =>
      s.(workers := s.workers[w := Serving(req)], callers := s.callers[req := Waiting], started := s.started + [req])
    case Finish(w) => s.(workers := s.workers[w := Handing(s.workers[w].req)])
    case Deliver(w) =>
      s.(workers := s.workers[w := Idle], callers := s.callers[s.workers[w].req := Served])
    case Timeout(req) => s.(callers := s.callers[req := TimedOut], drains := s.drains + {req})
    case Drain(w) => s.(workers := s.workers[w := Idle], drains := s.drains - {s.workers[w].req})
  }

  ghost predicate Runs(s: State, steps: seq<Step>)
    decreases |steps|
  {
    steps == [] || (Enabled(s, steps[0]) && Runs(Next(s, steps[0]), steps[1..]))
  }

  function After(s: State, steps: seq<Step>): State
    requires Runs(s, steps)
    decreases |steps|
  {
    if steps == [] then s else After(Next(s, steps[0]), steps[1..])
  }

  // -------------------------------------------------------------------------
  // What every schedule keeps

  /** Someone is there to take the answer to this request: its caller, or its drain. */
  predicate HasReceiver(s: State, req: nat) {
    Is(s, req, Waiting) || req in s.drains
  }

  ghost predicate Held(s: State, req: nat) {
    exists w :: 0 <= w < |s.workers| && s.workers[w].Busy() && s.workers[w].req == req
  }

  ghost predicate Inv(s: State) {
    && (forall r :: r in s.drains ==> Is(s, r, TimedOut))
    && (forall w :: 0 <= w < |s.workers| && s.workers[w].Busy() ==> HasReceiver(s, s.workers[w].req))
    && (forall v, w :: 0 <= v < w < |s.workers| && s.workers[v].Busy() && s.workers[w].Busy() ==>
          s.workers[v].req != s.workers[w].req)
    && (forall r :: HasReceiver(s, r) ==> Held(s, r))
    && (forall r :: r in s.started <==> r in s.callers && s.callers[r] != Sending)
    && (forall i, j :: 0 <= i < j < |s.started| ==> s.started[i] != s.started[j])
  }

  lemma HeldElsewhere(s: State, t: State, w: nat, r: nat)
    requires w < |s.workers| == |t.workers| && Held(s, r)
    requires forall v :: 0 <= v < |s.workers| && v != w ==> t.workers[v] == s.workers[v]
    requires s.workers[w].Busy() && s.workers[w].req == r ==> t.workers[w].Busy() && t.workers[w].req == r
    ensures Held(t, r)
  {
    var v :| 0 <= v < |s.workers| && s.workers[v].Busy() && s.workers[v].req == r;
    assert t.workers[v].Busy() && t.workers[v].req == r;
  }

  lemma StepKeepsInv(s: State, step: Step)
    requires Inv(s) && Enabled(s, step)
    ensures Inv(Next(s, step))
  {
    var t := Next(s, step);
    if step.Accept? || step.Finish? || step.Deliver? || step.Drain? {
      var w := step.worker;
      forall r | HasReceiver(t, r) ensures Held(t, r) {
        if step.Accept? && r == step.req {
          assert t.workers[w].Busy() && t.workers[w].req == r;
        } else {
          HeldElsewhere(s, t, w, r);
        }
      }
    } else {
      forall r | HasReceiver(t, r) ensures Held(t, r) {
        assert Held(s, r) && t.workers == s.workers;
        var v :| 0 <= v < |s.workers| && s.workers[v].Busy() && s.workers[v].req == r;
        assert t.workers[v].Busy();
      }
    }
  }

  lemma {:induction false} RunKeepsInv(s: State, steps: seq<Step>)
    requires Inv(s) && Runs(s, steps)
    ensures Inv(After(s, steps)) && |After(s, steps).workers| == |s.workers|
    decreases |steps|
  {
    if steps != [] {
      StepKeepsInv(s, steps[0]);
      RunKeepsInv(Next(s, steps[0]), steps[1..]);
    }
  }

  /** Every schedule from a new bucket. */
  lemma Reachable(size: nat, steps: seq<Step>)
    requires Runs(NewBucket(size), steps)
    ensures Inv(After(NewBucket(size), steps)) && |After(NewBucket(size), steps).workers| == size
  {
    RunKeepsInv(NewBucket(size), steps);
  }

  // -------------------------------------------------------------------------
  // What it means

  /** A worker with an answer has exactly one taker: its caller, or the drain left behind by it. */
  lemma OneReceiver(s: State, w: nat)
    requires Inv(s) && w < |s.workers| && s.workers[w].Handing?
    ensures Enabled(s, Deliver(w)) <==> !Enabled(s, Drain(w))
  {
    assert HasReceiver(s, s.workers[w].req);
  }

  /** No handler is started twice for a request, and none for a request not yet accepted. */
  lemma StartedOnce(s: State, i: nat, j: nat)
    requires Inv(s) && i < |s.started| && j < |s.started| && s.started[i] == s.started[j]
    ensures i == j && s.started[i] in s.callers && s.callers[s.started[i]] != Sending
  {
    assert s.started[i] in s.started;
  }

  function CountBusy(workers: seq<Worker>): nat {
    if workers == [] then 0 else (if workers[0].Busy() then 1 else 0) + CountBusy(workers[1..])
  }

  function BusyReqs(workers: seq<Worker>): set<nat> {
    set w | 0 <= w < |workers| && workers[w].Busy() :: workers[w].req
  }

  function WaitingCallers(s: State): set<nat> {
    set r | r in s.callers && s.callers[r] == Waiting
  }

  lemma {:induction false} DistinctReqs(workers: seq<Worker>)
    requires forall v, w :: 0 <= v < w < |workers| && workers[v].Busy() && workers[w].Busy() ==>
      workers[v].req != workers[w].req
    ensures |BusyReqs(workers)| == CountBusy(workers)
  {
    if workers != [] {
      var rest := workers[1..];
      DistinctReqs(rest);
      assert forall w :: 0 < w < |workers| ==> workers[w] == rest[w - 1];
      if workers[0].Busy() {
        assert workers[0].req !in BusyReqs(rest);
        assert BusyReqs(workers) == BusyReqs(rest) + {workers[0].req};
      } else {
        assert BusyReqs(workers) == BusyReqs(rest);
      }
    }
  }

  /** The busy workers are the callers that wait plus the answers still to be drained. */
  lemma BusyAccount(s: State)
    requires Inv(s)
    ensures CountBusy(s.workers) == |WaitingCallers(s)| + |s.drains|
  {
    DistinctReqs(s.workers);
    BusyAreReceived(s);
    assert WaitingCallers(s) !! s.drains;
    hide Inv, BusyReqs, CountBusy, WaitingCallers;
  }

  lemma BusyAreReceived(s: State)
    requires Inv(s)
    ensures BusyReqs(s.workers) == WaitingCallers(s) + s.drains
  {
    forall r ensures r in BusyReqs(s.workers) <==> HasReceiver(s, r) {
      assert HasReceiver(s, r) ==> Held(s, r);
    }
  }

  lemma {:induction false} AllBusy(workers: seq<Worker>)
    ensures CountBusy(workers) <= |workers|
    ensures CountBusy(workers) == |workers| <==> forall w :: 0 <= w < |workers| ==> workers[w].Busy()
  {
    if workers != [] {
      AllBusy(workers[1..]);
      assert forall w :: 0 < w < |workers| ==> workers[w] == workers[1..][w - 1];
    }
  }

  /**
   A request that timed out goes on holding its place until its handler returns: the next
   caller gets in exactly when the waiting and the timed-out ones leave a worker over.
   */
  lemma AdmitsExactly(s: State, req: nat)
    requires Inv(s) && Is(s, req, Sending)
    ensures (exists w :: Enabled(s, Accept(w, req))) <==> |WaitingCallers(s)| + |s.drains| < |s.workers|
  {
    BusyAccount(s);
    AllBusy(s.workers);
    if CountBusy(s.workers) < |s.workers| {
      var w :| 0 <= w < |s.workers| && !s.workers[w].Busy();
      assert Enabled(s, Accept(w, req));
    }
  }

  /** The timeout does not run while a caller waits to be accepted. */
  lemma NoTimeoutInTheQueue(s: State, step: Step, req: nat)
    requires Enabled(s, step) && Is(s, req, Sending)
    ensures Is(Next(s, step), req, Sending) <==> !(step.Accept? && step.req == req)
  {
  }

  /** The steps left before all handlers are done and all their answers taken. */
  function Work(workers: seq<Worker>): nat {
    if workers == [] then 0
    else (match workers[0] case Idle => 0 case Serving(_) => 2 case Handing(_) => 1) + Work(workers[1..])
  }

  lemma {:induction false} WorkAt(workers: seq<Worker>, w: nat, x: Worker)
    requires w < |workers|
    ensures workers[w].Serving? && x.Handing? ==> Work(workers[w := x]) == Work(workers) - 1
    ensures workers[w].Handing? && x.Idle? ==> Work(workers[w := x]) == Work(workers) - 1
  {
    if w > 0 {
      WorkAt(workers[1..], w - 1, x);
      assert workers[w := x][1..] == workers[1..][w - 1 := x];
    } else {
      assert workers[w := x][1..] == workers[1..];
    }
  }

  lemma {:induction false} WorkLeft(workers: seq<Worker>)
    ensures Work(workers) == 0 <==> forall w :: 0 <= w < |workers| ==> workers[w].Idle?
  {
    if workers != [] {
      WorkLeft(workers[1..]);
      assert forall w :: 0 < w < |workers| ==> workers[w] == workers[1..][w - 1];
    }
  }

  /** Every worker is idle, no caller waits and no drain is left. */
  ghost predicate AtRest(s: State) {
    && (forall w :: 0 <= w < |s.workers| ==> s.workers[w].Idle?)
    && s.drains == {} && WaitingCallers(s) == {}
  }

  lemma NothingHeld(s: State)
    requires Inv(s) && forall w :: 0 <= w < |s.workers| ==> s.workers[w].Idle?
    ensures AtRest(s) && forall r :: !Is(s, r, Waiting)
  {
    forall r ensures !HasReceiver(s, r) {
      assert HasReceiver(s, r) ==> Held(s, r);
    }
    assert forall r :: r in s.drains ==> HasReceiver(s, r);
    assert forall r :: r in WaitingCallers(s) ==> HasReceiver(s, r);
    assert forall r :: Is(s, r, Waiting) ==> HasReceiver(s, r);
  }

  /**
   No worker is ever lost: from any reachable state, timeouts or not, the workers alone
   can finish what they hold, each in its own steps, and all be idle again.
   */
  lemma {:induction false} AllComeBack(s: State) returns (steps: seq<Step>)
    requires Inv(s)
    ensures Runs(s, steps) && |steps| == Work(s.workers)
    ensures AtRest(After(s, steps))
    ensures forall r :: Is(s, r, Waiting) ==> Is(After(s, steps), r, Served)
    decreases Work(s.workers)
  {
    WorkLeft(s.workers);
    if Work(s.workers) == 0 {
      steps := [];
      NothingHeld(s);
      assert After(s, steps) == s;
    } else {
      var w :| 0 <= w < |s.workers| && !s.workers[w].Idle?;
      hide Inv, AtRest;
      var step := if s.workers[w].Serving? then Finish(w) else if Enabled(s, Deliver(w)) then Deliver(w) else Drain(w);
      if s.workers[w].Handing? {
        OneReceiver(s, w);
      }
      StepKeepsInv(s, step);
      WorkAt(s.workers, w, Next(s, step).workers[w]);
      var rest := AllComeBack(Next(s, step));
      steps := [step] + rest;
      ServedStays(Next(s, step), rest);
    }
  }

  /** A step that a worker takes, in whatever it holds. */
  predicate OfWorker(step: Step) {
    step.Finish? || step.Deliver? || step.Drain?
  }

  ghost predicate OfWorkers(steps: seq<Step>) {
    forall i :: 0 <= i < |steps| ==> OfWorker(steps[i])
  }

  lemma WorkerStepCounts(s: State, step: Step)
    requires Enabled(s, step) && OfWorker(step)
    ensures Work(Next(s, step).workers) == Work(s.workers) - 1
    ensures forall r :: Is(s, r, Waiting) ==> Is(Next(s, step), r, Waiting) || Is(Next(s, step), r, Served)
    ensures forall r :: Is(s, r, Served) ==> Is(Next(s, step), r, Served)
  {
    WorkAt(s.workers, step.worker, Next(s, step).workers[step.worker]);
  }

  lemma {:induction false} WorkerRunCounts(s: State, steps: seq<Step>)
    requires Inv(s) && Runs(s, steps) && OfWorkers(steps)
    ensures Inv(After(s, steps)) && |steps| + Work(After(s, steps).workers) == Work(s.workers)
    ensures forall r :: Is(s, r, Waiting) ==> Is(After(s, steps), r, Waiting) || Is(After(s, steps), r, Served)
    decreases |steps|
  {
    hide Inv, Enabled, Next, OfWorker;
    if steps != [] {
      StepKeepsInv(s, steps[0]);
      WorkerStepCounts(s, steps[0]);
      assert OfWorkers(steps[1..]);
      WorkerRunCounts(Next(s, steps[0]), steps[1..]);
      ServedStays(Next(s, steps[0]), steps[1..]);
    }
  }

  /** The workers can go on as long as one of them holds something. */
  lemma AtRestExactly(s: State)
    requires Inv(s)
    ensures AtRest(s) <==> forall step :: OfWorker(step) ==> !Enabled(s, step)
    ensures AtRest(s) <==> Work(s.workers) == 0
  {
    WorkLeft(s.workers);
    if Work(s.workers) == 0 {
      NothingHeld(s);
    } else {
      var w :| 0 <= w < |s.workers| && !s.workers[w].Idle?;
      if s.workers[w].Handing? {
        OneReceiver(s, w);
      }
      var step := if s.workers[w].Serving? then Finish(w) else if Enabled(s, Deliver(w)) then Deliver(w) else Drain(w);
      assert OfWorker(step) && Enabled(s, step);
    }
  }

  /**
   So however the workers take turns, they make no more steps than there is work; they
   cannot go on if and only if they made that many, and then all is at rest.
   */
  lemma WorkersStopAtRest(s: State, steps: seq<Step>)
    requires Inv(s) && Runs(s, steps) && OfWorkers(steps)
    ensures |steps| <= Work(s.workers)
    ensures var end := After(s, steps);
            && ((forall step :: OfWorker(step) ==> !Enabled(end, step)) <==> |steps| == Work(s.workers))
            && (AtRest(end) <==> |steps| == Work(s.workers))
            && (AtRest(end) ==> forall r :: Is(s, r, Waiting) ==> Is(end, r, Served))
  {
    WorkerRunCounts(s, steps);
    AtRestExactly(After(s, steps));
    if AtRest(After(s, steps)) {
      NothingHeld(After(s, steps));
    }
    hide Inv, Enabled, Next, After, Runs;
  }

  /** A caller that returned with its answer has returned. */
  lemma {:induction false} ServedStays(s: State, steps: seq<Step>)
    requires Runs(s, steps)
    ensures forall r :: Is(s, r, Served) ==> Is(After(s, steps), r, Served)
    decreases |steps|
  {
    if steps != [] {
      ServedStays(Next(s, steps[0]), steps[1..]);
    }
  }

  /** The timeout of a caller that waits may come at any time, and only then; its answer stays to be drained. */
  lemma TimeoutExactly(s: State, req: nat)
    requires Inv(s)
    ensures Enabled(s, Timeout(req)) <==> req in s.callers && s.callers[req] == Waiting
    ensures Enabled(s, Timeout(req)) ==>
      var t := Next(s, Timeout(req));
      && t.callers[req] == TimedOut && req in t.drains && t.workers == s.workers
      && exists w :: 0 <= w < |t.workers| && t.workers[w].Busy() && t.workers[w].req == req && !Enabled(t, Deliver(w))
  {
    if Is(s, req, Waiting) {
      assert HasReceiver(s, req) && Held(s, req);
    }
  }

  /** A caller that timed out has its 503 and nothing else, whatever its handler does later. */
  lemma {:induction false} TimedOutStays(s: State, steps: seq<Step>, req: nat)
    requires Runs(s, steps) && Is(s, req, TimedOut) && Inv(s)
    ensures Is(After(s, steps), req, TimedOut)
    decreases |steps|
  {
    if steps != [] {
      StepKeepsInv(s, steps[0]);
      TimedOutStays(Next(s, steps[0]), steps[1..], req);
    }
  }

  /** Anyone may call at any time, and a handler may return at any time. */
  lemma AlwaysPossible(s: State, req: nat, w: nat)
    ensures Enabled(s, Arrive(req)) <==> req !in s.callers
    ensures w < |s.workers| && s.workers[w] == Serving(req) ==>
      Enabled(s, Finish(w)) && Next(s, Finish(w)).workers == s.workers[w := Handing(req)]
  {
  }
}
