/**
 Whole runs of the in-memory session store: what every sequence of calls keeps under a
 clock whose readings never repeat, and what it keeps of the handles that callers hold.
 */
module MemRuns {
  import opened OrderedIndex
  import opened SessionApi
  import opened MemSessions

  /** The index holds exactly the sessions of the map, each under its own expiry. */
  ghost predicate InSync(st: State) {
    && StrictlySorted(st.index)
    && (forall e :: e in st.index ==> e.uuid in st.live && st.live[e.uuid] == e.at)
    && (forall u :: u in st.live ==> Entry(u, st.live[u]) in st.index)
  }

  lemma KeyInIndex(st: State, u: string)
    requires InSync(st) && u in st.live
    ensures HasKey(st.index, st.live[u])
  {
    var i :| 0 <= i < |st.index| && st.index[i] == Entry(u, st.live[u]);
  }

  lemma NoTwoUnderOneKey(ix: seq<Entry>, d: Entry, e: Entry)
    requires StrictlySorted(ix) && d in ix && e in ix && d.at == e.at
    ensures d == e
  {
    var i :| 0 <= i < |ix| && ix[i] == d;
    var j :| 0 <= j < |ix| && ix[j] == e;
  }

  /** No two sessions of a store in step share an expiry. */
  lemma ExpiriesDiffer(st: State, u: string, v: string)
    requires InSync(st) && u in st.live && v in st.live && st.live[u] == st.live[v]
    ensures u == v
  {
    NoTwoUnderOneKey(st.index, Entry(u, st.live[u]), Entry(v, st.live[v]));
  }

  /** The key `at` already belongs to a session other than u. */
  ghost predicate Taken(st: State, u: string, at: int) {
    exists v :: v in st.live && v != u && st.live[v] == at
  }

  lemma TakenIsKeyOfRest(st: State, u: string, at: int)
    requires InSync(st) && u in st.live
    ensures HasKey(RemoveKey(st.index, st.live[u]), at) <==> Taken(st, u, at)
  {
    var rest := RemoveKey(st.index, st.live[u]);
    RemoveMeaning(st.index, st.live[u]);
    if HasKey(rest, at) {
      var i :| 0 <= i < |rest| && rest[i].at == at;
      assert rest[i] in rest;
      assert rest[i].uuid != u;
    }
    if Taken(st, u, at) {
      var v :| v in st.live && v != u && st.live[v] == at;
      if at == st.live[u] {
        ExpiriesDiffer(st, u, v);
      }
      var i :| 0 <= i < |rest| && rest[i] == Entry(v, at);
    }
  }

  /** New keeps the two in step under any clock: a repeated reading makes it fail cleanly. */
  lemma NewKeepsInSync(st: State, u: string, at: int)
    requires InSync(st)
    ensures InSync(AfterNew(st, u, at).0)
    ensures AfterNew(st, u, at).1 == Failed(IndexItemFound) <==> u !in st.live && Taken(st, u, at)
    ensures AfterNew(st, u, at).1.Failed? ==> AfterNew(st, u, at).0 == st
  {
    if u !in st.live {
      if HasKey(st.index, at) {
        var i :| 0 <= i < |st.index| && st.index[i].at == at;
        assert st.index[i] in st.index;
      } else {
        InsertMeaning(st.index, Entry(u, at));
        forall v | v in st.live ensures st.live[v] != at {
          KeyInIndex(st, v);
        }
      }
    }
  }

  lemma RestoreTaken(st: State, u: string, at: int)
    requires InSync(st) && u in st.live && Taken(st, u, at)
    ensures AfterRestore(st, u, at).1 == Failed(IndexItemFound)
    ensures !InSync(AfterRestore(st, u, at).0)
  {
    KeyInIndex(st, u);
    TakenIsKeyOfRest(st, u, at);
    RestIsInSync(st, u);
    assert Entry(u, at) !in RemoveKey(st.index, st.live[u]);
    hide HasKey, RemoveKey, Taken;
    var lost := State(st.live[u := at], RemoveKey(st.index, st.live[u]), st.count);
    assert AfterRestore(st, u, at).0 == lost && u in lost.live;
  }

  lemma RestoreFree(st: State, u: string, at: int)
    requires InSync(st) && u in st.live && !Taken(st, u, at)
    ensures AfterRestore(st, u, at).1 == Handle(u)
    ensures InSync(AfterRestore(st, u, at).0)
  {
    KeyInIndex(st, u);
    TakenIsKeyOfRest(st, u, at);
    RestIsInSync(st, u);
    var others := State(st.live - {u}, RemoveKey(st.index, st.live[u]), st.count);
    hide InSync, HasKey, RemoveKey, Insert, Taken;
    NewKeepsInSync(others, u, at);
    RestoreIsNewAmongOthers(st, u, at);
    SameTables(AfterNew(others, u, at).0, AfterRestore(st, u, at).0);
  }

  /** Where it succeeds, Restore leaves what New would leave after the session had gone. */
  lemma RestoreIsNewAmongOthers(st: State, u: string, at: int)
    requires u in st.live && HasKey(st.index, st.live[u]) && !HasKey(RemoveKey(st.index, st.live[u]), at)
    ensures var others := State(st.live - {u}, RemoveKey(st.index, st.live[u]), st.count);
            var created, restored := AfterNew(others, u, at), AfterRestore(st, u, at);
            && created.1 == restored.1 == Handle(u)
            && created.0.live == restored.0.live && created.0.index == restored.0.index
  {
    hide HasKey, RemoveKey, Insert;
    assert (st.live - {u})[u := at] == st.live[u := at];
  }

  lemma SameTables(s: State, t: State)
    requires s.live == t.live && s.index == t.index
    ensures InSync(s) == InSync(t)
  {
  }

  /** Restore keeps them in step exactly when the new expiry is not that of another session. */
  lemma RestoreKeepsInSync(st: State, u: string, at: int)
    requires InSync(st)
    ensures InSync(AfterRestore(st, u, at).0) <==> u !in st.live || !Taken(st, u, at)
    ensures AfterRestore(st, u, at).1 == if u !in st.live then Failed(SessNotFound)
                                         else if Taken(st, u, at) then Failed(IndexItemFound)
                                         else Handle(u)
  {
    if u in st.live && Taken(st, u, at) {
      RestoreTaken(st, u, at);
    } else if u in st.live {
      RestoreFree(st, u, at);
    }
  }

  /** Without the entry of u, the index is in step with the other sessions. */
  lemma RestIsInSync(st: State, u: string)
    requires InSync(st) && u in st.live
    ensures InSync(State(st.live - {u}, RemoveKey(st.index, st.live[u]), st.count))
    ensures forall e :: e in RemoveKey(st.index, st.live[u]) ==> e.uuid != u
  {
    RemoveMeaning(st.index, st.live[u]);
    forall v | v in st.live && v != u ensures st.live[v] != st.live[u] {
      if st.live[v] == st.live[u] {
        ExpiriesDiffer(st, u, v);
      }
    }
  }

  lemma DeleteKeepsInSync(st: State, u: string)
    requires InSync(st)
    ensures InSync(AfterDelete(st, u).0)
    ensures AfterDelete(st, u).1 != Failed(IndexNotFound)
  {
    if u in st.live {
      KeyInIndex(st, u);
      RestIsInSync(st, u);
    }
  }

  /** One pass removes exactly the sessions that are due and have no handle out. */
  lemma CleanupMeaning(st: State, due: (string, int) -> bool)
    requires InSync(st)
    ensures InSync(AfterCleanup(st, due))
    ensures forall u :: u in st.live ==>
      (u in AfterCleanup(st, due).live <==> !(due(u, st.live[u]) && st.Count(u) == 0))
  {
    WithoutMeaning(st.index, st.DoomedKeys(due));
    forall u | u in st.live
      ensures u in st.DoomedIds(due) <==> due(u, st.live[u]) && st.Count(u) == 0
      ensures u in st.DoomedIds(due) <==> st.live[u] in st.DoomedKeys(due)
    {
      var e := Entry(u, st.live[u]);
      assert e in st.index;
      if st.live[u] in st.DoomedKeys(due) {
        var d :| d in st.index && st.Doomed(d, due) && d.at == e.at;
        NoTwoUnderOneKey(st.index, d, e);
      }
    }
  }

  /** The test that the program passes: a session is due while the clock is before its expiry. */
  function CodeTest(now: int): (string, int) -> bool {
    (u: string, at: int) => now < at
  }

  /** So a pass keeps every expired session and removes the free ones that have not expired. */
  lemma CleanupRemovesTheUnexpired(st: State, now: int, u: string)
    requires InSync(st) && u in st.live
    ensures u !in AfterCleanup(st, CodeTest(now)).live <==> now < st.live[u] && st.Count(u) == 0
    ensures AnswerTtl(st, u, now) == Failed(SessExpired) ==> u in AfterCleanup(st, CodeTest(now)).live
  {
    CleanupMeaning(st, CodeTest(now));
  }

  // -------------------------------------------------------------------------
  // Runs

  /**
   The store, the handles out with the uuid each is for, how many were ever given out,
   and the expiries handed out so far.  A handle is named by its turn.
   */
  datatype World = World(st: State, held: map<nat, string>, issued: nat, used: set<int>) {
    function Out(u: string): set<nat> {
      set h | h in held && held[h] == u
    }
  }

  const START := World(EMPTY, map[], 0, {})

  function Stamps(op: Op, ttl: int): set<int> {
    match op
    case New(_, now) => {now + ttl}
    case Restore(_, _, now) => {now + ttl}
    case _ => {}
  }

  /** A clock reading that was not there before. */
  ghost predicate Fresh(w: World, ttl: int, op: Op) {
    Stamps(op, ttl) !! w.used
  }

  /** What is given back is a handle out. */
  predicate Owned(w: World, op: Op) {
    op.Return? ==> op.handle in w.Out(op.uuid)
  }

  /** Or nobody holds the session. */
  predicate Harmless(w: World, op: Op) {
    op.Return? ==> op.handle in w.Out(op.uuid) || w.Out(op.uuid) == {}
  }

  /** A session that is returned gives the caller a handle; giving it back takes that handle away. */
  function HeldAfter(w: World, op: Op, reply: Reply): map<nat, string> {
    if reply.Handle? then w.held[w.issued := reply.uuid]
    else if op.Return? && reply.Done? && op.handle in w.Out(op.uuid) then w.held - {op.handle}
    else w.held
  }

  ghost function Next(w: World, ttl: int, op: Op): World {
    var (st, reply) := Apply(w.st, ttl, op);
    World(st, HeldAfter(w, op, reply), if reply.Handle? then w.issued + 1 else w.issued, w.used + Stamps(op, ttl))
  }

  ghost predicate FreshRun(w: World, ttl: int, ops: seq<Op>)
    decreases |ops|
  {
    ops == [] || (Fresh(w, ttl, ops[0]) && FreshRun(Next(w, ttl, ops[0]), ttl, ops[1..]))
  }

  ghost predicate HarmlessRun(w: World, ttl: int, ops: seq<Op>)
    decreases |ops|
  {
    ops == [] || (Harmless(w, ops[0]) && HarmlessRun(Next(w, ttl, ops[0]), ttl, ops[1..]))
  }

  ghost function Run(w: World, ttl: int, ops: seq<Op>): World
    decreases |ops|
  {
    if ops == [] then w else Run(Next(w, ttl, ops[0]), ttl, ops[1..])
  }

  ghost function Replies(w: World, ttl: int, ops: seq<Op>): seq<Reply>
    decreases |ops|
  {
    if ops == [] then []
    else [Apply(w.st, ttl, ops[0]).1] + Replies(Next(w, ttl, ops[0]), ttl, ops[1..])
  }

  // -------------------------------------------------------------------------
  // Index and map, whatever is returned

  /** The expiries in use were all handed out. */
  ghost predicate Stamped(w: World) {
    forall u :: u in w.st.live ==> w.st.live[u] in w.used
  }

  /** Only sessions of the map are counted. */
  ghost predicate Known(st: State) {
    forall u :: st.Count(u) > 0 ==> u in st.live
  }

  ghost predicate Inv(w: World) {
    InSync(w.st) && Stamped(w) && Known(w.st)
  }

  predicate IndexFailure(reply: Reply) {
    reply == Failed(IndexItemFound) || reply == Failed(IndexNotFound)
  }

  lemma FreshIsFree(w: World, u: string, at: int)
    requires Stamped(w) && at !in w.used
    ensures !Taken(w.st, u, at)
  {
  }

  lemma StepKeepsInSync(w: World, ttl: int, op: Op)
    requires InSync(w.st) && Stamped(w) && Fresh(w, ttl, op)
    ensures InSync(Apply(w.st, ttl, op).0)
    ensures !IndexFailure(Apply(w.st, ttl, op).1)
  {
    var st := w.st;
    hide Taken, HasKey, Insert, RemoveKey, Without;
    match op
    case New(u, now) =>
      FreshIsFree(w, u, now + ttl);
      NewKeepsInSync(st, u, now + ttl);
    case Restore(u, _, now) =>
      FreshIsFree(w, u, now + ttl);
      RestoreKeepsInSync(st, u, now + ttl);
    case Delete(u) =>
      DeleteKeepsInSync(st, u);
    case Cleanup(due) =>
      CleanupMeaning(st, due);
    case _ =>
  }

  lemma StepKeepsStamped(w: World, ttl: int, op: Op)
    requires Stamped(w)
    ensures Stamped(Next(w, ttl, op))
  {
  }

  lemma HandleCounts(st: State, ttl: int, op: Op)
    requires Apply(st, ttl, op).1.Handle?
    ensures op.New? || op.Restore?
    ensures var next := Apply(st, ttl, op).0;
            next.count == st.Inc(op.uuid) && op.uuid in next.live && st.live.Keys <= next.live.Keys
    ensures Apply(st, ttl, op).1.uuid == op.uuid
  {
    hide HasKey, Insert, RemoveKey, Without, AfterCleanup;
  }

  /** Every other call but Return leaves the counter alone, and every session that it counts in the map. */
  lemma OthersCount(st: State, ttl: int, op: Op)
    requires InSync(st) && !op.Return? && !Apply(st, ttl, op).1.Handle?
    ensures var next := Apply(st, ttl, op).0;
            next.count == st.count && forall u :: u in st.live && st.Count(u) > 0 ==> u in next.live
  {
    if op.Cleanup? {
      CleanupMeaning(st, op.due);
      assert Apply(st, ttl, op).0.count == st.count;
      hide AfterCleanup;
    }
    hide InSync, HasKey, Insert, RemoveKey, Without, AfterReturn;
  }

  lemma StepKeepsKnown(st: State, ttl: int, op: Op)
    requires InSync(st) && Known(st)
    ensures Known(Apply(st, ttl, op).0)
  {
    if op.Return? {
      hide InSync;
    } else if Apply(st, ttl, op).1.Handle? {
      HandleCounts(st, ttl, op);
      hide InSync, Apply;
    } else {
      OthersCount(st, ttl, op);
      hide InSync, Apply;
      assert forall u :: Apply(st, ttl, op).0.Count(u) == st.Count(u);
    }
  }

  /** One call with a fresh reading: the invariant is kept, the index never gets in the way. */
  lemma StepKeepsInv(w: World, ttl: int, op: Op)
    requires Inv(w) && Fresh(w, ttl, op)
    ensures Inv(Next(w, ttl, op))
    ensures !IndexFailure(Apply(w.st, ttl, op).1)
  {
    StepKeepsInSync(w, ttl, op);
    StepKeepsStamped(w, ttl, op);
    StepKeepsKnown(w.st, ttl, op);
  }

  lemma {:induction false} RunKeepsInv(w: World, ttl: int, ops: seq<Op>)
    requires Inv(w) && FreshRun(w, ttl, ops)
    ensures Inv(Run(w, ttl, ops))
    ensures forall r :: r in Replies(w, ttl, ops) ==> !IndexFailure(r)
    decreases |ops|
  {
    if ops != [] {
      StepKeepsInv(w, ttl, ops[0]);
      RunKeepsInv(Next(w, ttl, ops[0]), ttl, ops[1..]);
    }
  }

  // -------------------------------------------------------------------------
  // Counters and handles

  /** Each counter is the number of handles out for its uuid. */
  ghost predicate Counted(w: World) {
    && (forall h :: h in w.held ==> h < w.issued)
    && (forall u :: w.st.Count(u) == |w.Out(u)|)
  }

  lemma OutAfterTaking(w: World, n: World, u: string, v: string)
    requires w.issued !in w.held && n.held == w.held[w.issued := u]
    ensures n.Out(v) == if v == u then w.Out(v) + {w.issued} else w.Out(v)
  {
  }

  lemma TakeHandle(w: World, n: World, u: string)
    requires Counted(w) && n.held == w.held[w.issued := u] && n.issued == w.issued + 1
    requires n.st.count == w.st.Inc(u)
    ensures Counted(n) && n.Out(u) == w.Out(u) + {w.issued}
  {
    forall v ensures n.st.Count(v) == |n.Out(v)| {
      OutAfterTaking(w, n, u, v);
      assert w.issued !in w.Out(v);
      assert w.st.Count(v) == |w.Out(v)|;
    }
    OutAfterTaking(w, n, u, u);
  }

  lemma GiveBack(w: World, n: World, u: string, h: nat)
    requires Counted(w) && n.st.count == w.st.Dec(u) && n.issued == w.issued
    requires n.held == if h in w.Out(u) then w.held - {h} else w.held
    ensures Counted(n) <==> h in w.Out(u) || w.Out(u) == {}
  {
    assert forall v :: n.Out(v) == if v == u then w.Out(v) - {h} else w.Out(v);
    assert w.st.Count(u) == |w.Out(u)|;
    if h in w.Out(u) || w.Out(u) == {} {
      forall v ensures n.st.Count(v) == |n.Out(v)| {
        assert w.st.Count(v) == |w.Out(v)|;
      }
    } else {
      assert n.Out(u) == w.Out(u);
    }
  }

  lemma SameHandles(w: World, n: World)
    requires n.st.count == w.st.count && n.held == w.held && n.issued == w.issued
    ensures Counted(n) <==> Counted(w)
  {
    assert forall u :: n.Out(u) == w.Out(u) && n.st.Count(u) == w.st.Count(u);
  }

  lemma HeldIsKnown(w: World, u: string)
    requires Known(w.st) && Counted(w) && w.Out(u) != {}
    ensures w.st.Count(u) > 0 && u in w.st.live
  {
    assert w.st.Count(u) == |w.Out(u)|;
  }

  /** A call keeps the counters right if and only if it is no Return of a stray handle for a session in use. */
  lemma CountedExactly(w: World, ttl: int, op: Op)
    requires Inv(w) && Counted(w)
    ensures Counted(Next(w, ttl, op)) <==> Harmless(w, op)
  {
    var next := Next(w, ttl, op);
    if op.Return? {
      if w.Out(op.uuid) != {} {
        HeldIsKnown(w, op.uuid);
      }
      if op.uuid in w.st.live {
        hide InSync, Counted;
        GiveBack(w, next, op.uuid, op.handle);
      } else {
        SameHandles(w, next);
      }
    } else if Apply(w.st, ttl, op).1.Handle? {
      HandleCounts(w.st, ttl, op);
      hide InSync, Counted, Apply;
      TakeHandle(w, next, op.uuid);
    } else {
      OthersCount(w.st, ttl, op);
      hide InSync, Counted, Apply;
      SameHandles(w, next);
    }
  }

  /** No call removes a session that someone holds; a session created starts with one handle exactly. */
  lemma HandlesAreSafe(w: World, ttl: int, op: Op)
    requires Inv(w) && Counted(w)
    ensures forall h :: h in w.held ==> w.held[h] in Next(w, ttl, op).st.live
    ensures op.New? && Apply(w.st, ttl, op).1.Handle? ==>
      Next(w, ttl, op).st.Count(op.uuid) == 1 && Next(w, ttl, op).Out(op.uuid) == {w.issued}
  {
    forall h | h in w.held ensures w.held[h] in Next(w, ttl, op).st.live {
      assert h in w.Out(w.held[h]);
      HeldIsKnown(w, w.held[h]);
      if !op.Return? && !Apply(w.st, ttl, op).1.Handle? {
        OthersCount(w.st, ttl, op);
      } else if !op.Return? {
        HandleCounts(w.st, ttl, op);
      }
    }
    if op.New? && Apply(w.st, ttl, op).1.Handle? {
      assert w.Out(op.uuid) == {} by {
        if w.Out(op.uuid) != {} {
          HeldIsKnown(w, op.uuid);
        }
      }
      TakeHandle(w, Next(w, ttl, op), op.uuid);
    }
  }

  ghost predicate AlwaysCounted(w: World, ttl: int, ops: seq<Op>)
    decreases |ops|
  {
    Counted(w) && (ops == [] || AlwaysCounted(Next(w, ttl, ops[0]), ttl, ops[1..]))
  }

  /** On a run the counters are right throughout if and only if no stray handle is returned on it. */
  lemma {:induction false} RunCountedExactly(w: World, ttl: int, ops: seq<Op>)
    requires Inv(w) && Counted(w) && FreshRun(w, ttl, ops)
    ensures AlwaysCounted(w, ttl, ops) <==> HarmlessRun(w, ttl, ops)
    ensures HarmlessRun(w, ttl, ops) ==> Counted(Run(w, ttl, ops))
    decreases |ops|
  {
    if ops != [] {
      StepKeepsInv(w, ttl, ops[0]);
      CountedExactly(w, ttl, ops[0]);
      if Harmless(w, ops[0]) {
        RunCountedExactly(Next(w, ttl, ops[0]), ttl, ops[1..]);
      }
    }
  }

  /** Every run from the empty store. */
  lemma RunFromStart(ttl: int, ops: seq<Op>)
    requires FreshRun(START, ttl, ops)
    ensures InSync(Run(START, ttl, ops).st)
    ensures forall r :: r in Replies(START, ttl, ops) ==> !IndexFailure(r)
    ensures HarmlessRun(START, ttl, ops) ==>
      var w := Run(START, ttl, ops);
      && (forall u :: w.st.Count(u) == |w.Out(u)|)
      && (forall h :: h in w.held ==> w.held[h] in w.st.live)
  {
    var w := Run(START, ttl, ops);
    RunKeepsInv(START, ttl, ops);
    RunCountedExactly(START, ttl, ops);
    if HarmlessRun(START, ttl, ops) {
      forall h | h in w.held ensures w.held[h] in w.st.live {
        assert h in w.Out(w.held[h]);
        HeldIsKnown(w, w.held[h]);
      }
    }
  }

  // -------------------------------------------------------------------------
  // Without the hypotheses

  /** A reading repeated in Restore leaves a session without an entry in the index. */
  lemma RepeatedReadingLosesSession()
    ensures var a := AfterNew(EMPTY, "a", 1).0;
            var b := AfterNew(a, "b", 2).0;
            var (c, reply) := AfterRestore(b, "a", 2);
            && reply == Failed(IndexItemFound)
            && "a" in c.live && c.index == [Entry("b", 2)]
  {
    var a := AfterNew(EMPTY, "a", 1).0;
    assert a.index == [Entry("a", 1)];
    assert a.index[0].at == 1;
    var b := AfterNew(a, "b", 2).0;
    assert b.index == [Entry("a", 1), Entry("b", 2)];
    assert b.index[0].at == 1;
    assert RemoveKey(b.index, 1) == [Entry("b", 2)];
    assert RemoveKey(b.index, 1)[0].at == 2;
  }

  /**
   And then, once it is free, its own Delete takes out the entry of the other session,
   which no call can find any more.
   */
  lemma LostSessionTakesAnother(st: State, u: string, v: string, at: int)
    requires InSync(st) && u in st.live && v in st.live && u != v && st.live[v] == at && st.Count(u) == 0
    ensures var (c, reply) := AfterRestore(st, u, at);
            var (d, done) := AfterDelete(c, u);
            && reply == Failed(IndexItemFound) && done == Done
            && v in d.live && (forall e :: e in d.index ==> e.uuid != v)
            && AfterDelete(d, v) == (d, Failed(if st.Count(v) > 0 then SessInUse else IndexNotFound))
            && (forall again :: AfterRestore(d, v, again) == (d, Failed(IndexNotFound)))
  {
    hide InSync, HasKey, RemoveKey, Insert, StrictlySorted;
    EntryTakenOut(st, u, v, at);
    var c := State(st.live[u := at], RemoveKey(st.index, st.live[u]), st.count);
    assert AfterRestore(st, u, at) == (c, Failed(IndexItemFound));
    assert c.live[v] == at && c.Count(u) == 0 && c.Count(v) == st.Count(v);
    var d := State(c.live - {u}, RemoveKey(c.index, at), c.count);
    assert AfterDelete(c, u) == (d, Done);
    assert d.live[v] == at && d.Count(v) == st.Count(v);
  }

  lemma EntryTakenOut(st: State, u: string, v: string, at: int)
    requires InSync(st) && u in st.live && v in st.live && u != v && st.live[v] == at
    ensures HasKey(st.index, st.live[u]) && HasKey(RemoveKey(st.index, st.live[u]), at)
    ensures var gone := RemoveKey(RemoveKey(st.index, st.live[u]), at);
            !HasKey(gone, at) && forall e :: e in gone ==> e.uuid != v
  {
    KeyInIndex(st, u);
    TakenIsKeyOfRest(st, u, at);
    RestIsInSync(st, u);
    assert Taken(st, u, at);
    var rest := RemoveKey(st.index, st.live[u]);
    hide RemoveKey;
    RemoveMeaning(rest, at);
    var gone := RemoveKey(rest, at);
    assert forall i :: 0 <= i < |gone| ==> gone[i] in gone;
  }

  /**
   After a Return, the session can be deleted under someone who holds it if and only if
   what came back was a stray handle and one handle is out.
   */
  lemma StrayReturnExactly(w: World, ttl: int, u: string, h: nat)
    requires Inv(w) && Counted(w)
    ensures var n := Next(w, ttl, Return(u, h));
            Apply(n.st, ttl, Delete(u)).1 == Done && n.Out(u) != {} <==> h !in w.Out(u) && |w.Out(u)| == 1
  {
    var n := Next(w, ttl, Return(u, h));
    assert w.st.Count(u) == |w.Out(u)|;
    if w.Out(u) == {} {
      assert n.Out(u) == {};
    } else {
      HeldIsKnown(w, u);
      KeyInIndex(w.st, u);
      assert n.st.live == w.st.live && n.st.index == w.st.index;
      CountedExactly(w, ttl, Return(u, h));
      if h in w.Out(u) {
        assert n.st.Count(u) == |n.Out(u)|;
      } else {
        assert n.Out(u) == w.Out(u);
      }
    }
  }

  /** So with two handles out, one of them returned twice frees the session of the other. */
  lemma DoubleReturnFreesHeldSession(w: World, ttl: int, u: string, h: nat)
    requires Inv(w) && Counted(w) && h in w.Out(u) && |w.Out(u)| == 2
    ensures var n := Run(w, ttl, [Return(u, h), Return(u, h)]);
            Apply(n.st, ttl, Delete(u)).1 == Done && n.Out(u) != {}
  {
    var m := Next(w, ttl, Return(u, h));
    StepKeepsInv(w, ttl, Return(u, h));
    CountedExactly(w, ttl, Return(u, h));
    HeldIsKnown(w, u);
    assert m.Out(u) == w.Out(u) - {h};
    StrayReturnExactly(m, ttl, u, h);
    assert [Return(u, h), Return(u, h)][1..] == [Return(u, h)];
    assert Run(m, ttl, [Return(u, h)]) == Run(Next(m, ttl, Return(u, h)), ttl, []);
  }
}
