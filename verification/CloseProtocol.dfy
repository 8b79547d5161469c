/**
 The Close of the in-memory session store (sessions/memory.go:131-194): it waits for the
 handles out by having every Return signal it, over a channel, while holding the lock.

 One goroutine closes, after the cleanup goroutine has answered it.  Any number of others
 go on calling the store of the module MemRuns, each call under its lock.
 */
module CloseProtocol {
  import opened SessionApi
  import M = MemSessions
  import R = MemRuns

  /** Before the lock at the label, blocked in the receive, or gone from the method. */
  datatype Closer = Again | Waiting | Returned

  /**
   `signal` says that dsignal is not nil.  A Return that finds it so is left holding the
   lock until someone receives from it: that is `sender`.
   */
  datatype State = State(w: R.World, closer: Closer, signal: bool, sender: bool)

  datatype Step =
    | Call(op: Op)  // of anyone but the closer
    | Receive       // the rendezvous on dsignal
    | Check         // from the label to the unlock

  predicate Enabled(s: State, step: Step) {
    match step
    case Call(_) => !s.sender
    case Receive => s.sender && s.closer == Waiting
    case Check => !s.sender && s.closer == Again
  }

  /** A step that is not enabled waits. */
  ghost function Next(s: State, ttl: int, step: Step): State {
    if !Enabled(s, step) then s
    else
      match step
      case Call(op) => s.(w := R.Next(s.w, ttl, op), sender := s.signal && M.Signals(s.w.st, op))
      case Receive => s.(closer := Again, sender := false)
      case Check =>
        if M.Any(s.w.st.count) then s.(closer := Waiting, signal := true) else s.(closer := Returned, signal := false)
  }

  /** Close has begun and nobody has signalled yet, whatever was done to the store before. */
  function Begin(w: R.World): State {
    State(w, Again, false, false)
  }

  ghost predicate Runs(s: State, ttl: int, steps: seq<Step>)
    decreases |steps|
  {
    steps == [] || (Enabled(s, steps[0]) && Runs(Next(s, ttl, steps[0]), ttl, steps[1..]))
  }

  ghost function After(s: State, ttl: int, steps: seq<Step>): State
    decreases |steps|
  {
    if steps == [] then s else After(Next(s, ttl, steps[0]), ttl, steps[1..])
  }

  lemma AfterFirst(s: State, ttl: int, steps: seq<Step>, step: Step)
    ensures After(s, ttl, [step] + steps) == After(Next(s, ttl, step), ttl, steps)
    ensures Runs(s, ttl, [step] + steps) <==> Enabled(s, step) && Runs(Next(s, ttl, step), ttl, steps)
    ensures GivesBack(s, ttl, [step] + steps) <==> GivesBackNow(s, step) && GivesBack(Next(s, ttl, step), ttl, steps)
    ensures Idles(s, ttl, [step] + steps) <==> IdlesNow(s, step) && Idles(Next(s, ttl, step), ttl, steps)
  {
    assert ([step] + steps)[1..] == steps;
  }

  /** No counter goes down without a signal. */
  lemma CallKeepsAny(st: M.State, ttl: int, op: Op)
    requires M.Any(st.count) && !M.Signals(st, op)
    ensures M.Any(M.Apply(st, ttl, op).0.count)
  {
    var u :| u in st.count && st.count[u] > 0;
    var count := M.Apply(st, ttl, op).0.count;
    assert u in count && count[u] > 0;
  }

  /** On every schedule: who holds the lock to signal, and why Close may be waiting. */
  ghost predicate Inv(s: State) {
    && (s.sender ==> s.signal)
    && (s.closer == Waiting ==> s.signal && (s.sender || M.Any(s.w.st.count)))
    && (s.closer == Returned ==> !s.signal && !s.sender)
  }

  lemma StepKeepsInv(s: State, ttl: int, step: Step)
    requires Inv(s)
    ensures Inv(Next(s, ttl, step))
  {
    if step.Call? && M.Any(s.w.st.count) && !M.Signals(s.w.st, step.op) {
      CallKeepsAny(s.w.st, ttl, step.op);
    }
    hide M.Any, M.Apply;
  }

  lemma {:induction false} RunKeepsInv(s: State, ttl: int, steps: seq<Step>)
    requires Inv(s)
    ensures Inv(After(s, ttl, steps))
    decreases |steps|
  {
    if steps != [] {
      StepKeepsInv(s, ttl, steps[0]);
      RunKeepsInv(Next(s, ttl, steps[0]), ttl, steps[1..]);
    }
  }

  function Calls(steps: seq<Step>): seq<Op> {
    if steps == [] then []
    else (if steps[0].Call? then [steps[0].op] else []) + Calls(steps[1..])
  }

  /** The calls of a schedule are a run of the store: Close only decides when they get the lock. */
  lemma {:induction false} CallsAreARun(s: State, ttl: int, steps: seq<Step>)
    requires Runs(s, ttl, steps)
    ensures After(s, ttl, steps).w == R.Run(s.w, ttl, Calls(steps))
    decreases |steps|
  {
    if steps != [] {
      hide R.Next, M.Any, M.Signals;
      var rest := Calls(steps[1..]);
      CallsAreARun(Next(s, ttl, steps[0]), ttl, steps[1..]);
      if steps[0].Call? {
        assert Calls(steps) == [steps[0].op] + rest && Calls(steps)[1..] == rest;
        assert Next(s, ttl, steps[0]).w == R.Next(s.w, ttl, steps[0].op);
      } else {
        assert Calls(steps) == [] + rest == rest;
        assert Next(s, ttl, steps[0]).w == s.w;
      }
    }
  }

  // -------------------------------------------------------------------------
  // When Close returns

  /** A counter is positive if and only if someone holds a handle. */
  lemma AnyExactly(w: R.World)
    requires R.Counted(w)
    ensures M.Any(w.st.count) <==> w.held != map[]
  {
    if M.Any(w.st.count) {
      var u :| u in w.st.count && w.st.count[u] > 0;
      assert w.st.Count(u) == |w.Out(u)|;
      var h :| h in w.Out(u);
    }
    if h :| h in w.held {
      var u := w.held[h];
      assert h in w.Out(u);
      assert w.st.Count(u) == |w.Out(u)|;
    }
  }

  /** Close has returned if and only if it once found all counters at zero. */
  lemma {:induction false} ReturnedExactly(s: State, ttl: int, steps: seq<Step>)
    requires s.closer != Returned && Runs(s, ttl, steps)
    ensures After(s, ttl, steps).closer == Returned <==>
      exists k :: 0 <= k < |steps| && steps[k].Check? && !M.Any(After(s, ttl, steps[..k]).w.st.count)
    decreases |steps|
  {
    if steps != [] {
      var next, rest := Next(s, ttl, steps[0]), steps[1..];
      assert After(s, ttl, steps[..0]) == s;
      forall k | 0 <= k < |rest|
        ensures rest[k] == steps[k + 1] && After(s, ttl, steps[..k + 1]) == After(next, ttl, rest[..k])
      {
        assert steps[..k + 1] == [steps[0]] + rest[..k];
        AfterFirst(s, ttl, rest[..k], steps[0]);
      }
      if next.closer == Returned {
        StaysReturned(next, ttl, rest);
      } else {
        ReturnedExactly(next, ttl, rest);
        hide M.Any, Next, After, Runs;
        if k :| 0 <= k < |rest| && rest[k].Check? && !M.Any(After(next, ttl, rest[..k]).w.st.count) {
          assert steps[k + 1].Check? && !M.Any(After(s, ttl, steps[..k + 1]).w.st.count);
        }
      }
    }
  }

  lemma {:induction false} StaysReturned(s: State, ttl: int, steps: seq<Step>)
    requires s.closer == Returned
    ensures After(s, ttl, steps).closer == Returned
    decreases |steps|
  {
    if steps != [] {
      StaysReturned(Next(s, ttl, steps[0]), ttl, steps[1..]);
    }
  }

  /** The store in step, and its counters right. */
  ghost predicate Sound(s: State) {
    Inv(s) && R.Inv(s.w) && R.Counted(s.w)
  }

  /** Fresh clock readings, and no stray handle given back. */
  ghost predicate Legal(s: State, ttl: int, step: Step) {
    step.Call? ==> R.Fresh(s.w, ttl, step.op) && R.Harmless(s.w, step.op)
  }

  ghost predicate LegalRun(s: State, ttl: int, steps: seq<Step>)
    decreases |steps|
  {
    steps == [] || (Legal(s, ttl, steps[0]) && LegalRun(Next(s, ttl, steps[0]), ttl, steps[1..]))
  }

  lemma StepKeepsSound(s: State, ttl: int, step: Step)
    requires Sound(s) && Legal(s, ttl, step)
    ensures Sound(Next(s, ttl, step))
  {
    StepKeepsInv(s, ttl, step);
    if step.Call? {
      R.StepKeepsInv(s.w, ttl, step.op);
      R.CountedExactly(s.w, ttl, step.op);
    }
    hide Inv, R.Inv, R.Counted, R.Next, M.Any;
  }

  lemma {:induction false} PrefixKeepsSound(s: State, ttl: int, steps: seq<Step>, k: nat)
    requires Sound(s) && LegalRun(s, ttl, steps) && k <= |steps|
    ensures Sound(After(s, ttl, steps[..k]))
    decreases k
  {
    hide Sound, Legal, Next;
    if k > 0 {
      StepKeepsSound(s, ttl, steps[0]);
      PrefixKeepsSound(Next(s, ttl, steps[0]), ttl, steps[1..], k - 1);
      assert steps[..k] == [steps[0]] + steps[1..][..k - 1];
      AfterFirst(s, ttl, steps[1..][..k - 1], steps[0]);
    }
  }

  /** So Close returns if and only if it looks at a moment at which nobody holds a handle. */
  lemma ReturnedWithoutHandles(s: State, ttl: int, steps: seq<Step>)
    requires Sound(s) && s.closer != Returned && Runs(s, ttl, steps) && LegalRun(s, ttl, steps)
    ensures After(s, ttl, steps).closer == Returned <==>
      exists k :: 0 <= k < |steps| && steps[k].Check? && After(s, ttl, steps[..k]).w.held == map[]
  {
    ReturnedExactly(s, ttl, steps);
    forall k | 0 <= k < |steps|
      ensures M.Any(After(s, ttl, steps[..k]).w.st.count) <==> After(s, ttl, steps[..k]).w.held != map[]
    {
      PrefixKeepsSound(s, ttl, steps, k);
      AnyExactly(After(s, ttl, steps[..k]).w);
    }
    hide M.Any, After, Runs, LegalRun, Sound;
  }

  // -------------------------------------------------------------------------
  // The lost signal

  /** A Return sends while Close is on its way from the receive to the lock. */
  predicate Stuck(s: State) {
    s.sender && s.closer == Again
  }

  /** Then nobody moves again: not Close, not that Return, not any other call. */
  lemma StuckForever(s: State, ttl: int, steps: seq<Step>)
    requires Stuck(s)
    ensures Runs(s, ttl, steps) <==> steps == []
  {
  }

  /** A run ends stuck if and only if its last step is a Return that finds the signal set and Close at the label. */
  lemma {:induction false} StuckExactly(s: State, ttl: int, steps: seq<Step>)
    requires Inv(s) && !Stuck(s) && Runs(s, ttl, steps) && steps != []
    ensures var before, last := After(s, ttl, steps[..|steps| - 1]), steps[|steps| - 1];
            Stuck(After(s, ttl, steps)) <==>
              last.Call? && M.Signals(before.w.st, last.op) && before.signal && before.closer == Again
    decreases |steps|
  {
    var next, rest := Next(s, ttl, steps[0]), steps[1..];
    StepKeepsInv(s, ttl, steps[0]);
    if rest == [] {
      assert steps[..|steps| - 1] == [];
      assert After(next, ttl, rest) == next;
    } else {
      assert !Stuck(next);
      StuckExactly(next, ttl, rest);
      assert steps[..|steps| - 1] == [steps[0]] + rest[..|rest| - 1];
      AfterFirst(s, ttl, rest[..|rest| - 1], steps[0]);
    }
  }

  /** Only calls that hand out nothing, and each handle given back by its holder. */
  ghost predicate GivesBack(s: State, ttl: int, steps: seq<Step>)
    decreases |steps|
  {
    steps == [] || (GivesBackNow(s, steps[0]) && GivesBack(Next(s, ttl, steps[0]), ttl, steps[1..]))
  }

  predicate GivesBackNow(s: State, step: Step) {
    step.Call? ==> !step.op.New? && !step.op.Restore? && R.Owned(s.w, step.op)
  }

  /** A handle given back is one handle less, and signals; the other calls change nothing of this. */
  lemma ReturnEffect(w: R.World, ttl: int, op: Op)
    requires R.Inv(w) && R.Counted(w) && !op.New? && !op.Restore? && R.Owned(w, op)
    ensures R.Inv(R.Next(w, ttl, op)) && R.Counted(R.Next(w, ttl, op))
    ensures op.Return? ==> op.handle in w.held && R.Next(w, ttl, op).held == w.held - {op.handle}
    ensures M.Signals(w.st, op) <==> op.Return?
    ensures !op.Return? ==> R.Next(w, ttl, op).held == w.held
  {
    R.StepKeepsInv(w, ttl, op);
    R.CountedExactly(w, ttl, op);
    if op.Return? {
      R.HeldIsKnown(w, op.uuid);
    } else if M.Apply(w.st, ttl, op).1.Handle? {
      R.HandleCounts(w.st, ttl, op);
    }
    hide R.Inv, R.Counted;
  }

  lemma HeldWithout(held: map<nat, string>, h: nat)
    requires h in held
    ensures |held - {h}| == |held| - 1
  {
    assert held == (held - {h})[h := held[h]];
  }

  /** Two handles out are enough to get there, the second one returned too early. */
  lemma StuckIsReachable(w: R.World, ttl: int, a: nat, b: nat)
    requires R.Inv(w) && R.Counted(w) && a in w.held && b in w.held && a != b
    ensures var steps := [Check, Call(Return(w.held[a], a)), Receive, Call(Return(w.held[b], b))];
            && Runs(Begin(w), ttl, steps) && GivesBack(Begin(w), ttl, steps)
            && Stuck(After(Begin(w), ttl, steps))
  {
    var first, second := Call(Return(w.held[a], a)), Call(Return(w.held[b], b));
    AnyExactly(w);
    assert a in w.Out(w.held[a]);
    ReturnEffect(w, ttl, first.op);
    var v := R.Next(w, ttl, first.op);
    assert b in v.Out(v.held[b]);
    ReturnEffect(v, ttl, second.op);
    hide R.Inv, R.Counted, R.Next, M.Any, M.Signals;
    var s1 := Next(Begin(w), ttl, Check);
    var s2 := Next(s1, ttl, first);
    var s3 := Next(s2, ttl, Receive);
    var s4 := Next(s3, ttl, second);
    assert s1 == State(w, Waiting, true, false) && s2 == State(v, Waiting, true, true);
    assert s3 == State(v, Again, true, false) && Stuck(s4);
    FourSteps(Begin(w), ttl, Check, first, Receive, second);
  }

  /** With one handle out, where Close is past its wait with the signal set, the handle is back. */
  ghost predicate OneAtMost(s: State) {
    |s.w.held| <= 1 && (s.signal && (s.sender || s.closer == Again) ==> s.w.held == map[])
  }

  lemma OneStaysOne(s: State, ttl: int, step: Step)
    requires Sound(s) && OneAtMost(s) && !Stuck(s) && Enabled(s, step) && GivesBackNow(s, step)
    ensures Sound(Next(s, ttl, step)) && OneAtMost(Next(s, ttl, step)) && !Stuck(Next(s, ttl, step))
  {
    StepKeepsInv(s, ttl, step);
    if step.Call? {
      ReturnEffect(s.w, ttl, step.op);
      if step.op.Return? {
        HeldWithout(s.w.held, step.op.handle);
      }
    }
    hide R.Inv, R.Counted, R.Next, M.Any, M.Signals, Inv;
  }

  /** And two are needed. */
  lemma {:induction false} StuckNeedsTwo(s: State, ttl: int, steps: seq<Step>)
    requires Sound(s) && OneAtMost(s) && !Stuck(s) && Runs(s, ttl, steps) && GivesBack(s, ttl, steps)
    ensures !Stuck(After(s, ttl, steps))
    decreases |steps|
  {
    hide Sound, OneAtMost, Stuck, Enabled, GivesBackNow, Next;
    if steps != [] {
      OneStaysOne(s, ttl, steps[0]);
      StuckNeedsTwo(Next(s, ttl, steps[0]), ttl, steps[1..]);
    }
  }

  lemma TwoHandles(held: map<nat, string>) returns (a: nat, b: nat)
    requires |held| > 1
    ensures a in held && b in held && a != b
  {
    a :| a in held;
    HeldWithout(held, a);
    b :| b in held - {a};
  }

  /** Handles given back once each by their holders can get Close stuck exactly if it begins with two of them out. */
  lemma CanGetStuckExactly(w: R.World, ttl: int)
    requires R.Inv(w) && R.Counted(w)
    ensures (exists steps ::
              Runs(Begin(w), ttl, steps) && GivesBack(Begin(w), ttl, steps) && Stuck(After(Begin(w), ttl, steps)))
            <==> |w.held| >= 2
  {
    if |w.held| >= 2 {
      var a, b := TwoHandles(w.held);
      StuckIsReachable(w, ttl, a, b);
    } else {
      forall steps | Runs(Begin(w), ttl, steps) && GivesBack(Begin(w), ttl, steps)
        ensures !Stuck(After(Begin(w), ttl, steps))
      {
        StuckNeedsTwo(Begin(w), ttl, steps);
      }
    }
  }

  /** Only calls that hand out nothing, and no stray handle: one may come back twice where nobody holds the session. */
  ghost predicate Idles(s: State, ttl: int, steps: seq<Step>)
    decreases |steps|
  {
    steps == [] || (IdlesNow(s, steps[0]) && Idles(Next(s, ttl, steps[0]), ttl, steps[1..]))
  }

  predicate IdlesNow(s: State, step: Step) {
    step.Call? ==> !step.op.New? && !step.op.Restore? && R.Harmless(s.w, step.op)
  }

  lemma {:induction false} GivingBackIdles(s: State, ttl: int, steps: seq<Step>)
    requires GivesBack(s, ttl, steps)
    ensures Idles(s, ttl, steps)
    decreases |steps|
  {
    hide Next;
    if steps != [] {
      GivingBackIdles(Next(s, ttl, steps[0]), ttl, steps[1..]);
    }
  }

  /** The last handle of all, returned a second time, does as well as another one. */
  lemma OneHandleIsEnough(w: R.World, ttl: int, a: nat)
    requires R.Inv(w) && R.Counted(w) && a in w.held && w.held == map[a := w.held[a]]
    ensures var twice := Call(Return(w.held[a], a));
            var steps := [Check, twice, Receive, twice];
            && Runs(Begin(w), ttl, steps) && Idles(Begin(w), ttl, steps)
            && Stuck(After(Begin(w), ttl, steps))
  {
    var u := w.held[a];
    var twice := Call(Return(u, a));
    AnyExactly(w);
    assert a in w.Out(u);
    R.HeldIsKnown(w, u);
    ReturnEffect(w, ttl, twice.op);
    var v := R.Next(w, ttl, twice.op);
    assert v.Out(u) == {} && M.Signals(v.st, twice.op);
    hide R.Inv, R.Counted, R.Next, M.Any, M.Signals, R.World.Out;
    var s1 := Next(Begin(w), ttl, Check);
    var s2 := Next(s1, ttl, twice);
    var s3 := Next(s2, ttl, Receive);
    var s4 := Next(s3, ttl, twice);
    assert s1 == State(w, Waiting, true, false) && s2 == State(v, Waiting, true, true);
    assert s3 == State(v, Again, true, false) && Stuck(s4);
    FourSteps(Begin(w), ttl, Check, twice, Receive, twice);
  }

  lemma FourSteps(s: State, ttl: int, a: Step, b: Step, c: Step, d: Step)
    ensures var s1 := Next(s, ttl, a);
            var s2 := Next(s1, ttl, b);
            var s3 := Next(s2, ttl, c);
            && After(s, ttl, [a, b, c, d]) == Next(s3, ttl, d)
            && (Runs(s, ttl, [a, b, c, d]) <==> Enabled(s, a) && Enabled(s1, b) && Enabled(s2, c) && Enabled(s3, d))
            && (GivesBack(s, ttl, [a, b, c, d]) <==>
                  GivesBackNow(s, a) && GivesBackNow(s1, b) && GivesBackNow(s2, c) && GivesBackNow(s3, d))
            && (Idles(s, ttl, [a, b, c, d]) <==>
                  IdlesNow(s, a) && IdlesNow(s1, b) && IdlesNow(s2, c) && IdlesNow(s3, d))
  {
    hide Next, Enabled, GivesBackNow, IdlesNow;
    var s1 := Next(s, ttl, a);
    var s2 := Next(s1, ttl, b);
    var s3 := Next(s2, ttl, c);
    var s4 := Next(s3, ttl, d);
    assert After(s4, ttl, []) == s4 && Runs(s4, ttl, []) && GivesBack(s4, ttl, []) && Idles(s4, ttl, []);
    hide After, Runs, GivesBack, Idles;
    AfterFirst(s3, ttl, [], d);
    AfterFirst(s2, ttl, [d], c);
    AfterFirst(s1, ttl, [c, d], b);
    AfterFirst(s, ttl, [b, c, d], a);
    assert [d] + [] == [d] && [c] + [d] == [c, d] && [b] + [c, d] == [b, c, d] && [a] + [b, c, d] == [a, b, c, d];
  }

  /** With no handle out, no Check finds any, so that the signal is never set. */
  ghost predicate NothingOut(s: State) {
    Sound(s) && s.w.held == map[] && !s.signal
  }

  lemma IdleEffect(w: R.World, ttl: int, op: Op)
    requires w.held == map[] && !op.New? && !op.Restore?
    ensures R.Next(w, ttl, op).held == map[]
  {
    if M.Apply(w.st, ttl, op).1.Handle? {
      R.HandleCounts(w.st, ttl, op);
    }
    hide M.Apply;
  }

  lemma NothingStaysOut(s: State, ttl: int, step: Step)
    requires NothingOut(s) && IdlesNow(s, step)
    ensures NothingOut(Next(s, ttl, step))
  {
    StepKeepsSound(s, ttl, step);
    AnyExactly(s.w);
    if step.Call? {
      IdleEffect(s.w, ttl, step.op);
    }
    hide Sound, R.Next, M.Any, M.Signals;
  }

  lemma {:induction false} NothingOutNeverStuck(s: State, ttl: int, steps: seq<Step>)
    requires NothingOut(s) && Idles(s, ttl, steps)
    ensures !Stuck(After(s, ttl, steps))
    decreases |steps|
  {
    hide Next, IdlesNow;
    if steps != [] {
      NothingStaysOut(s, ttl, steps[0]);
      NothingOutNeverStuck(Next(s, ttl, steps[0]), ttl, steps[1..]);
    }
  }

  /** So without that rule of once each, any handle out is enough. */
  lemma CanGetStuckIdlyExactly(w: R.World, ttl: int)
    requires R.Inv(w) && R.Counted(w)
    ensures (exists steps ::
              Runs(Begin(w), ttl, steps) && Idles(Begin(w), ttl, steps) && Stuck(After(Begin(w), ttl, steps)))
            <==> w.held != map[]
  {
    hide R.Inv, R.Counted, Stuck, After;
    if |w.held| >= 2 {
      CanGetStuckExactly(w, ttl);
      var steps :| Runs(Begin(w), ttl, steps) && GivesBack(Begin(w), ttl, steps)
                   && Stuck(After(Begin(w), ttl, steps));
      GivingBackIdles(Begin(w), ttl, steps);
    } else if w.held != map[] {
      var a := OnlyHandle(w.held);
      OneHandleIsEnough(w, ttl, a);
    } else {
      forall steps | Idles(Begin(w), ttl, steps) ensures !Stuck(After(Begin(w), ttl, steps)) {
        NothingOutNeverStuck(Begin(w), ttl, steps);
      }
    }
  }

  lemma OnlyHandle(held: map<nat, string>) returns (a: nat)
    requires held != map[] && |held| <= 1
    ensures a in held && held == map[a := held[a]]
  {
    a :| a in held;
    HeldWithout(held, a);
    assert held - {a} == map[];
  }

  // -------------------------------------------------------------------------
  // Termination

  /** And no Return between a signal and the next wait of Close. */
  ghost predicate Orderly(s: State, ttl: int, steps: seq<Step>)
    decreases |steps|
  {
    steps == [] || (OrderlyNow(s, steps[0]) && Orderly(Next(s, ttl, steps[0]), ttl, steps[1..]))
  }

  predicate OrderlyNow(s: State, step: Step) {
    GivesBackNow(s, step) && !(step.Call? && step.op.Return? && s.signal && s.closer == Again)
  }

  /** The steps of Close and the Returns: the other calls come and go. */
  predicate Moves(step: Step) {
    !step.Call? || step.op.Return?
  }

  function CountMoves(steps: seq<Step>): nat {
    if steps == [] then 0 else (if Moves(steps[0]) then 1 else 0) + CountMoves(steps[1..])
  }

  /** What is left to do: three moves for each handle out, and the rest of the present turn. */
  function Measure(s: State): nat {
    3 * |s.w.held| + (if s.sender then 2 else 0) + (if s.closer == Again then 1 else 0)
  }

  /** Close does not return before the handles are back. */
  ghost predicate InOrder(s: State) {
    Sound(s) && !Stuck(s) && (s.closer == Returned ==> s.w.held == map[])
  }

  lemma EveryMoveCounts(s: State, ttl: int, step: Step)
    requires InOrder(s) && Enabled(s, step) && OrderlyNow(s, step)
    ensures InOrder(Next(s, ttl, step))
    ensures Measure(Next(s, ttl, step)) + (if Moves(step) then 1 else 0) <= Measure(s)
  {
    StepKeepsInv(s, ttl, step);
    AnyExactly(s.w);
    if step.Call? {
      ReturnEffect(s.w, ttl, step.op);
      if step.op.Return? {
        HeldWithout(s.w.held, step.op.handle);
      }
    }
    hide R.Inv, R.Counted, R.Next, M.Any, M.Signals;
  }

  /** An orderly run never gets stuck, and Close and the Returns make no more moves on it than there are. */
  lemma {:induction false} OrderlyRunsAreShort(s: State, ttl: int, steps: seq<Step>)
    requires InOrder(s) && Runs(s, ttl, steps) && Orderly(s, ttl, steps)
    ensures InOrder(After(s, ttl, steps))
    ensures CountMoves(steps) + Measure(After(s, ttl, steps)) <= Measure(s)
    decreases |steps|
  {
    hide InOrder, Enabled, OrderlyNow, Next, Moves, Measure;
    if steps != [] {
      EveryMoveCounts(s, ttl, steps[0]);
      OrderlyRunsAreShort(Next(s, ttl, steps[0]), ttl, steps[1..]);
    }
  }

  /**
   From a Close that begins with n handles out, an orderly run has at most 3 n + 1 moves.
   When Close cannot move any more, it has returned if and only if all handles are back.
   */
  lemma OrderlyCloseExactly(w: R.World, ttl: int, steps: seq<Step>)
    requires R.Inv(w) && R.Counted(w) && Runs(Begin(w), ttl, steps) && Orderly(Begin(w), ttl, steps)
    ensures CountMoves(steps) <= 3 * |w.held| + 1
    ensures var end := After(Begin(w), ttl, steps);
            !Enabled(end, Receive) && !Enabled(end, Check) ==> (end.closer == Returned <==> end.w.held == map[])
  {
    OrderlyRunsAreShort(Begin(w), ttl, steps);
    AnyExactly(After(Begin(w), ttl, steps).w);
    hide R.Inv, R.Counted, M.Any, After, Runs, Orderly, CountMoves;
  }

  /** And once all handles are back, it takes two moves to get there. */
  lemma CloseReturns(w: R.World, ttl: int, steps: seq<Step>) returns (last: seq<Step>)
    requires R.Inv(w) && R.Counted(w) && Runs(Begin(w), ttl, steps) && Orderly(Begin(w), ttl, steps)
    requires After(Begin(w), ttl, steps).w.held == map[]
    ensures |last| <= 2 && Runs(After(Begin(w), ttl, steps), ttl, last)
    ensures After(After(Begin(w), ttl, steps), ttl, last).closer == Returned
  {
    OrderlyRunsAreShort(Begin(w), ttl, steps);
    var s := After(Begin(w), ttl, steps);
    AnyExactly(s.w);
    hide R.Inv, R.Counted, M.Any;
    if s.closer == Returned {
      last := [];
    } else if s.closer == Waiting {
      last := [Receive, Check];
      var t := Next(s, ttl, Receive);
      assert last[1..] == [Check] && [Check][1..] == [];
      assert After(t, ttl, [Check]) == Next(t, ttl, Check);
    } else {
      last := [Check];
      assert last[1..] == [];
    }
  }
}
