/**
 The session interface without an index, a counter or time keys: one table from uuid to
 expiry and handles out.  Both stores are shown to refine it, so that on the calls both
 of them promise to serve they cannot be told apart.
 */
module SessionTable {
  import opened Options
  import opened SessionApi
  import TimeKeys
  import OrderedIndex
  import M = MemSessions
  import R = MemRuns
  import B = BoltSessions

  datatype Slot = Slot(expires: int, out: nat)

  type Table = map<string, Slot>

  function AfterNew(t: Table, u: string, at: int): (Table, Reply) {
    if u in t then (t, Failed(SessFound)) else (t[u := Slot(at, 1)], Handle(u))
  }

  function AfterRestore(t: Table, u: string, at: int): (Table, Reply) {
    if u !in t then (t, Failed(SessNotFound)) else (t[u := Slot(at, t[u].out + 1)], Handle(u))
  }

  function AfterReturn(t: Table, u: string): (Table, Reply) {
    if u !in t then (t, Failed(SessNotFound))
    else (t[u := Slot(t[u].expires, if t[u].out == 0 then 0 else t[u].out - 1)], Done)
  }

  function AfterDelete(t: Table, u: string): (Table, Reply) {
    if u !in t then (t, Failed(SessNotFound))
    else if t[u].out > 0 then (t, Failed(SessInUse))
    else (t - {u}, Done)
  }

  function AnswerIsInUse(t: Table, u: string): Reply {
    if u !in t then Failed(SessNotFound) else Used(t[u].out > 0)
  }

  function AnswerTtl(t: Table, u: string, check: int): Reply {
    if u !in t then Failed(SessNotFound)
    else if t[u].expires < check then Failed(SessExpired)
    else Expires(t[u].expires)
  }

  function AfterCleanup(t: Table, due: (string, int) -> bool): Table {
    map u | u in t && !(due(u, t[u].expires) && t[u].out == 0) :: t[u]
  }

  function Apply(t: Table, ttl: int, op: Op): (Table, Reply) {
    match op
    case New(u, now) => AfterNew(t, u, now + ttl)
    case Restore(u, _, now) => AfterRestore(t, u, now + ttl)
    case Return(u, _) => AfterReturn(t, u)
    case Delete(u) => AfterDelete(t, u)
    case IsInUse(u) => (t, AnswerIsInUse(t, u))
    case Ttl(u, check) => (t, AnswerTtl(t, u, check))
    case Cleanup(due) => (AfterCleanup(t, due), Done)
  }

  function Replies(t: Table, ttl: int, ops: seq<Op>): seq<Reply>
    decreases |ops|
  {
    if ops == [] then []
    else [Apply(t, ttl, ops[0]).1] + Replies(Apply(t, ttl, ops[0]).0, ttl, ops[1..])
  }

  // -------------------------------------------------------------------------
  // What callers see of the table

  function Answer(t: Table, ttl: int, op: Op): Reply {
    Apply(t, ttl, op).1
  }

  /** Of an unknown session one learns nothing but that, until New opens it. */
  lemma UnknownSession(t: Table, ttl: int, u: string, check: int, now: int)
    requires Answer(t, ttl, IsInUse(u)) == Failed(SessNotFound)
    ensures Answer(t, ttl, Ttl(u, check)) == Failed(SessNotFound)
    ensures Answer(t, ttl, Restore(u, check, now)) == Failed(SessNotFound)
    ensures Answer(t, ttl, Delete(u)) == Failed(SessNotFound)
    ensures Answer(t, ttl, New(u, now)) == Handle(u)
    ensures forall h :: Answer(t, ttl, Return(u, h)) == Failed(SessNotFound)
  {
  }

  /** A session just opened is in use, and has expired once its time to live is over, which only Ttl minds. */
  lemma OpenedSession(t: Table, ttl: int, op: Op, check: int, now: int)
    requires (op.New? || op.Restore?) && Answer(t, ttl, op).Handle?
    ensures var n, u, at := Apply(t, ttl, op).0, op.uuid, op.now + ttl;
            && Answer(t, ttl, op) == Handle(u)
            && Answer(n, ttl, IsInUse(u)) == Used(true)
            && Answer(n, ttl, Ttl(u, check)) == (if at < check then Failed(SessExpired) else Expires(at))
            && Answer(n, ttl, Restore(u, check, now)) == Handle(u)
            && Answer(n, ttl, New(u, now)) == Failed(SessFound)
            && Answer(n, ttl, Delete(u)) == Failed(SessInUse)
            && forall h :: Answer(n, ttl, Return(u, h)) == Done
  {
  }

  function Returned(t: Table, ttl: int, u: string, k: nat): Table
    decreases k
  {
    if k == 0 then t else Returned(Apply(t, ttl, Return(u, 0)).0, ttl, u, k - 1)
  }

  /** A session opened n times more than it was returned is free after n returns and not before. */
  lemma {:induction false} FreeAfterReturns(t: Table, ttl: int, u: string, n: nat, k: nat)
    requires u in t && t[u].out == n
    ensures var r := Returned(t, ttl, u, k);
            && Answer(r, ttl, IsInUse(u)) == Used(k < n)
            && Answer(r, ttl, Delete(u)) == if k < n then Failed(SessInUse) else Done
    decreases k
  {
    if k > 0 {
      FreeAfterReturns(Apply(t, ttl, Return(u, 0)).0, ttl, u, if n == 0 then 0 else n - 1, k - 1);
    }
  }

  /** New opens it once, Restore once more. */
  lemma OpensOnce(t: Table, ttl: int, u: string, now: int)
    ensures Answer(t, ttl, New(u, now)) == Handle(u) ==> Apply(t, ttl, New(u, now)).0 == t[u := Slot(now + ttl, 1)]
    ensures u in t ==> Apply(t, ttl, Restore(u, now, now)).0 == t[u := Slot(now + ttl, t[u].out + 1)]
  {
  }

  /** A session that was deleted is unknown. */
  lemma DeletedSession(t: Table, ttl: int, u: string)
    requires Answer(t, ttl, Delete(u)) == Done
    ensures Answer(t, ttl, IsInUse(u)) == Used(false)
    ensures Answer(Apply(t, ttl, Delete(u)).0, ttl, IsInUse(u)) == Failed(SessNotFound)
  {
  }

  /** No call on one session is noticed by another, a question or an error by none. */
  lemma OthersSeeNothing(t: Table, ttl: int, op: Op, v: string)
    requires !op.Cleanup?
    ensures var n := Apply(t, ttl, op).0;
            op.uuid != v || op.IsInUse? || op.Ttl? || Answer(t, ttl, op).Failed? ==>
              (v in n <==> v in t) && (v in t ==> n[v] == t[v])
  {
  }

  // -------------------------------------------------------------------------
  // The in-memory store

  function OfMem(st: M.State): Table {
    Joined(st.live, st.count)
  }

  function Joined(live: map<string, int>, count: map<string, nat>): Table {
    map u | u in live :: Slot(live[u], if u in count then count[u] else 0)
  }

  lemma JoinedPut(live: map<string, int>, count: map<string, nat>, u: string, at: int, n: nat)
    ensures Joined(live[u := at], count[u := n]) == Joined(live, count)[u := Slot(at, n)]
  {
  }

  lemma JoinedCount(live: map<string, int>, count: map<string, nat>, u: string, n: nat)
    requires u in live
    ensures Joined(live, count[u := n]) == Joined(live, count)[u := Slot(live[u], n)]
  {
  }

  lemma JoinedDrop(live: map<string, int>, count: map<string, nat>, d: set<string>)
    ensures Joined(live - d, count) == Joined(live, count) - d
  {
  }

  /** One step in memory, and the step of the table it is to match. */
  ghost predicate MemMatches(mem: (M.State, Reply), table: (Table, Reply)) {
    mem.1 == table.1 && OfMem(mem.0) == table.0
  }

  lemma NewEffect(st: M.State, u: string, at: int)
    requires u !in st.live && st.Count(u) == 0 && M.AfterNew(st, u, at).1 != Failed(IndexItemFound)
    ensures M.AfterNew(st, u, at).1 == Handle(u)
    ensures var next := M.AfterNew(st, u, at).0;
            next.live == st.live[u := at] && next.count == st.count[u := 1]
  {
    hide OrderedIndex.HasKey, OrderedIndex.Insert;
  }

  lemma MemNew(st: M.State, u: string, at: int)
    requires R.InSync(st) && !R.Taken(st, u, at) && (u !in st.live ==> st.Count(u) == 0)
    ensures MemMatches(M.AfterNew(st, u, at), AfterNew(OfMem(st), u, at))
  {
    hide R.InSync, R.Taken;
    R.NewKeepsInSync(st, u, at);
    assert u in OfMem(st) <==> u in st.live;
    if u !in st.live {
      hide M.AfterNew;
      NewEffect(st, u, at);
      JoinedPut(st.live, st.count, u, at, 1);
      hide Joined;
    }
  }

  lemma RestoreEffect(st: M.State, u: string, at: int)
    requires M.AfterRestore(st, u, at).1.Handle?
    ensures var next := M.AfterRestore(st, u, at).0;
            next.live == st.live[u := at] && next.count == st.count[u := st.Count(u) + 1]
  {
    hide OrderedIndex.HasKey, OrderedIndex.Insert, OrderedIndex.RemoveKey;
  }

  lemma MemRestore(st: M.State, u: string, at: int)
    requires R.InSync(st) && !R.Taken(st, u, at)
    ensures MemMatches(M.AfterRestore(st, u, at), AfterRestore(OfMem(st), u, at))
  {
    hide R.InSync, R.Taken;
    R.RestoreKeepsInSync(st, u, at);
    assert u in OfMem(st) <==> u in st.live;
    if u in st.live {
      hide M.AfterRestore;
      assert OfMem(st)[u].out == st.Count(u);
      RestoreEffect(st, u, at);
      JoinedPut(st.live, st.count, u, at, st.Count(u) + 1);
      hide Joined;
    }
  }

  lemma MemReturn(st: M.State, u: string)
    ensures MemMatches(M.AfterReturn(st, u), AfterReturn(OfMem(st), u))
  {
    if u in st.live {
      JoinedCount(st.live, st.count, u, if st.Count(u) == 0 then 0 else st.Count(u) - 1);
    }
  }

  lemma MemDelete(st: M.State, u: string)
    requires R.InSync(st)
    ensures MemMatches(M.AfterDelete(st, u), AfterDelete(OfMem(st), u))
  {
    R.DeleteKeepsInSync(st, u);
    assert u in OfMem(st) <==> u in st.live;
    assert u in st.live ==> OfMem(st)[u].out == st.Count(u);
    JoinedDrop(st.live, st.count, {u});
    hide R.InSync, OrderedIndex.HasKey, OrderedIndex.RemoveKey, Joined;
  }

  lemma MemCleanup(st: M.State, due: (string, int) -> bool)
    requires R.InSync(st)
    ensures OfMem(M.AfterCleanup(st, due)) == AfterCleanup(OfMem(st), due)
  {
    R.CleanupMeaning(st, due);
    hide R.InSync, OrderedIndex.Without, M.State.DoomedIds;
  }

  lemma MemAnswers(st: M.State, u: string, check: int)
    ensures M.AnswerIsInUse(st, u) == AnswerIsInUse(OfMem(st), u)
    ensures M.AnswerTtl(st, u, check) == AnswerTtl(OfMem(st), u, check)
  {
  }

  lemma NoHandlesOfStrangers(w: R.World, u: string)
    requires R.Known(w.st) && u !in w.st.live
    ensures w.st.Count(u) == 0
  {
  }

  /** The index is transparent: with a fresh reading, every call does and answers what the table does. */
  lemma MemStep(w: R.World, ttl: int, op: Op)
    requires R.Inv(w) && R.Fresh(w, ttl, op)
    ensures MemMatches(M.Apply(w.st, ttl, op), Apply(OfMem(w.st), ttl, op))
  {
    var st := w.st;
    if op.New? && op.uuid !in st.live {
      NoHandlesOfStrangers(w, op.uuid);
    }
    hide R.Known, R.InSync, R.Taken, Joined, AfterNew, AfterRestore, AfterReturn, AfterDelete, AfterCleanup;
    hide M.AfterNew, M.AfterRestore, M.AfterReturn, M.AfterDelete, M.AfterCleanup;
    match op
    case New(u, now) =>
      R.FreshIsFree(w, u, now + ttl);
      MemNew(st, u, now + ttl);
    case Restore(u, _, now) =>
      R.FreshIsFree(w, u, now + ttl);
      MemRestore(st, u, now + ttl);
    case Return(u, _) =>
      MemReturn(st, u);
    case Delete(u) =>
      MemDelete(st, u);
    case IsInUse(u) =>
      MemAnswers(st, u, 0);
    case Ttl(u, check) =>
      MemAnswers(st, u, check);
    case Cleanup(due) =>
      MemCleanup(st, due);
  }

  lemma {:induction false} MemRefinesTable(w: R.World, ttl: int, ops: seq<Op>)
    requires R.Inv(w) && R.FreshRun(w, ttl, ops)
    ensures R.Replies(w, ttl, ops) == Replies(OfMem(w.st), ttl, ops)
    decreases |ops|
  {
    if ops != [] {
      MemStep(w, ttl, ops[0]);
      R.StepKeepsInv(w, ttl, ops[0]);
      MemRefinesTable(R.Next(w, ttl, ops[0]), ttl, ops[1..]);
    }
  }

  // -------------------------------------------------------------------------
  // The bolt store

  function OfBolt(st: B.State): Table {
    Decoded(st.keyOf, st.inUse)
  }

  function Decoded(keyOf: map<string, TimeKeys.Bytes>, inUse: set<string>): Table {
    map u | u in keyOf :: Slot(B.Expiry(keyOf[u]), if u in inUse then 1 else 0)
  }

  lemma DecodedPut(keyOf: map<string, TimeKeys.Bytes>, inUse: set<string>, u: string, at: int)
    requires InRange(at)
    ensures Decoded(keyOf[u := TimeKeys.Key(B.UnixNano(at))], inUse + {u}) == Decoded(keyOf, inUse)[u := Slot(at, 1)]
  {
    B.StampedExpiry(B.UnixNano(at));
    hide B.Expiry, TimeKeys.Key;
  }

  lemma DecodedFree(keyOf: map<string, TimeKeys.Bytes>, inUse: set<string>, u: string)
    requires u in keyOf
    ensures Decoded(keyOf, inUse - {u}) == Decoded(keyOf, inUse)[u := Slot(B.Expiry(keyOf[u]), 0)]
  {
    hide B.Expiry;
  }

  lemma DecodedDrop(keyOf: map<string, TimeKeys.Bytes>, inUse: set<string>, u: string)
    ensures Decoded(keyOf - {u}, inUse) == Decoded(keyOf, inUse) - {u}
  {
    hide B.Expiry;
  }

  /** The bolt store names the error for a duplicate its own way. */
  function Canonical(reply: Reply): Reply {
    if reply == Failed(UUIDDup) then Failed(SessFound) else reply
  }

  predicate InRange(at: int) {
    -TimeKeys.TWO_63 <= at < TimeKeys.TWO_63
  }

  /** What a caller can see before the call and the bolt store answers otherwise than the table. */
  predicate Differs(st: B.State, ttl: int, op: Op) {
    match op
    case New(u, now) => u !in st.keyOf && !B.ValidKey(u)
    case Restore(u, check, now) => !B.ValidKey(u) || (u in st.keyOf && B.Expiry(st.keyOf[u]) < check)
    case Return(u, _) => u in st.keyOf && u !in st.inUse
    case Delete(u) => u !in st.inUse && st.data.None?
    case Ttl(u, check) => u in st.keyOf && B.Expiry(st.keyOf[u]) < check
    case _ => false
  }

  /** Each call answers what the table answers exactly when it is not one of those. */
  lemma BoltReplies(st: B.State, ttl: int, op: Op)
    requires B.Sound(st)
    ensures Canonical(B.Apply(st, ttl, op).1) == Apply(OfBolt(st), ttl, op).1 <==> !Differs(st, ttl, op)
  {
    hide B.Expiry, TimeKeys.Key, B.UnixNano, B.ValidKey;
  }

  /** One step on bolt, and the step of the table it is to match. */
  ghost predicate BoltMatches(bolt: (B.State, Reply), table: (Table, Reply)) {
    Canonical(bolt.1) == table.1 && OfBolt(bolt.0) == table.0
  }

  lemma SlotOf(st: B.State, u: string)
    ensures u in OfBolt(st) <==> u in st.keyOf
    ensures u in st.keyOf ==> OfBolt(st)[u] == Slot(B.Expiry(st.keyOf[u]), if u in st.inUse then 1 else 0)
  {
  }

  lemma BoltNew(st: B.State, u: string, at: int)
    requires B.ValidKey(u) && InRange(at) && st.inUse <= st.keyOf.Keys
    ensures BoltMatches(B.AfterNew(st, u, at), AfterNew(OfBolt(st), u, at))
  {
    SlotOf(st, u);
    DecodedPut(st.keyOf, st.inUse, u, at);
    hide B.Expiry, TimeKeys.Key, B.UnixNano, B.ValidKey, Decoded, InRange;
  }

  lemma BoltRestore(st: B.State, u: string, check: int, at: int)
    requires B.ValidKey(u) && InRange(at) && u !in st.inUse
    requires u in st.keyOf ==> B.Expiry(st.keyOf[u]) >= check
    ensures BoltMatches(B.AfterRestore(st, u, check, at), AfterRestore(OfBolt(st), u, at))
  {
    SlotOf(st, u);
    DecodedPut(st.keyOf, st.inUse, u, at);
    hide B.Expiry, TimeKeys.Key, B.UnixNano, B.ValidKey, Decoded, InRange;
  }

  lemma BoltReturn(st: B.State, u: string)
    requires u in st.inUse
    ensures BoltMatches(B.AfterReturn(st, u), AfterReturn(OfBolt(st), u))
  {
    SlotOf(st, u);
    if u in st.keyOf {
      DecodedFree(st.keyOf, st.inUse, u);
    }
    hide B.Expiry, Decoded;
  }

  lemma BoltDelete(st: B.State, u: string)
    requires st.data.Some? && st.inUse <= st.keyOf.Keys
    ensures BoltMatches(B.AfterDelete(st, u), AfterDelete(OfBolt(st), u))
  {
    SlotOf(st, u);
    DecodedDrop(st.keyOf, st.inUse, u);
    hide B.Expiry, Decoded;
  }

  /**
   What a caller can see before the call and bolt does otherwise than the table: a
   different answer, a second handle, an expiry that is no int64, a cleanup that has
   something to do.
   */
  ghost predicate Off(st: B.State, ttl: int, op: Op) {
    || Differs(st, ttl, op)
    || (op.Restore? && op.uuid in st.inUse)
    || (op.New? && op.uuid !in st.keyOf && !InRange(op.now + ttl))
    || (op.Restore? && op.uuid in st.keyOf && !InRange(op.now + ttl))
    || (op.Cleanup? && exists u :: u in st.keyOf && u !in st.inUse && op.due(u, B.Expiry(st.keyOf[u])))
  }

  lemma NewDiffers(st: B.State, u: string, at: int)
    requires B.ValidKey(u) && !InRange(at) && u !in st.keyOf
    ensures !BoltMatches(B.AfterNew(st, u, at), AfterNew(OfBolt(st), u, at))
  {
    SlotOf(st, u);
    var next := B.AfterNew(st, u, at).0;
    B.StampedExpiry(B.UnixNano(at));
    SlotOf(next, u);
    assert AfterNew(OfBolt(st), u, at).0[u].expires == at;
    hide B.Expiry, TimeKeys.Key, B.UnixNano, B.ValidKey, Decoded;
  }

  lemma RestoreDiffers(st: B.State, u: string, check: int, at: int)
    requires B.Sound(st) && B.ValidKey(u) && u in st.keyOf && B.Expiry(st.keyOf[u]) >= check
    requires u in st.inUse || !InRange(at)
    ensures !BoltMatches(B.AfterRestore(st, u, check, at), AfterRestore(OfBolt(st), u, at))
  {
    SlotOf(st, u);
    var next := B.AfterRestore(st, u, check, at).0;
    B.StampedExpiry(B.UnixNano(at));
    SlotOf(next, u);
    assert OfBolt(next)[u] == Slot(B.UnixNano(at), 1);
    assert AfterRestore(OfBolt(st), u, at).0[u] == Slot(at, OfBolt(st)[u].out + 1);
    hide B.Expiry, TimeKeys.Key, B.UnixNano, B.ValidKey, Decoded;
  }

  lemma BoltNewExactly(st: B.State, u: string, at: int)
    requires B.Sound(st)
    ensures BoltMatches(B.AfterNew(st, u, at), AfterNew(OfBolt(st), u, at)) <==>
      u in st.keyOf || (B.ValidKey(u) && InRange(at))
  {
    SlotOf(st, u);
    if u !in st.keyOf && B.ValidKey(u) {
      if InRange(at) {
        BoltNew(st, u, at);
      } else {
        NewDiffers(st, u, at);
      }
    }
    hide Decoded, B.Expiry, B.ValidKey, InRange, TimeKeys.Key, B.UnixNano;
  }

  lemma BoltRestoreExactly(st: B.State, u: string, check: int, at: int)
    requires B.Sound(st)
    ensures BoltMatches(B.AfterRestore(st, u, check, at), AfterRestore(OfBolt(st), u, at)) <==>
      B.ValidKey(u) && (u in st.keyOf ==> B.Expiry(st.keyOf[u]) >= check && InRange(at) && u !in st.inUse)
  {
    SlotOf(st, u);
    if u in st.keyOf && B.ValidKey(u) && B.Expiry(st.keyOf[u]) >= check {
      if InRange(at) && u !in st.inUse {
        BoltRestore(st, u, check, at);
      } else {
        RestoreDiffers(st, u, check, at);
      }
    }
    hide Decoded, B.Expiry, B.ValidKey, InRange, TimeKeys.Key, B.UnixNano;
  }

  lemma BoltReturnExactly(st: B.State, u: string)
    requires B.Sound(st)
    ensures BoltMatches(B.AfterReturn(st, u), AfterReturn(OfBolt(st), u)) <==> !(u in st.keyOf && u !in st.inUse)
  {
    SlotOf(st, u);
    if u in st.inUse {
      BoltReturn(st, u);
    }
    hide Decoded, B.Expiry;
  }

  lemma BoltDeleteExactly(st: B.State, u: string)
    requires B.Sound(st)
    ensures BoltMatches(B.AfterDelete(st, u), AfterDelete(OfBolt(st), u)) <==> u in st.inUse || st.data.Some?
  {
    SlotOf(st, u);
    if u !in st.inUse && st.data.Some? {
      BoltDelete(st, u);
    }
    hide Decoded, B.Expiry;
  }

  lemma BoltCleanup(st: B.State, due: (string, int) -> bool)
    ensures AfterCleanup(OfBolt(st), due) == OfBolt(st) <==>
      !exists u :: u in st.keyOf && u !in st.inUse && due(u, B.Expiry(st.keyOf[u]))
  {
    var t := OfBolt(st);
    hide B.Expiry;
    if u :| u in st.keyOf && u !in st.inUse && due(u, B.Expiry(st.keyOf[u])) {
      assert u in t && u !in AfterCleanup(t, due);
    }
  }

  /** Each call does and answers what the table does exactly when it is not one of those. */
  lemma BoltMatchesExactly(st: B.State, ttl: int, op: Op)
    requires B.Sound(st)
    ensures BoltMatches(B.Apply(st, ttl, op), Apply(OfBolt(st), ttl, op)) <==> !Off(st, ttl, op)
  {
    hide Decoded, B.Expiry, B.ValidKey, InRange, TimeKeys.Key, B.UnixNano;
    hide AfterNew, AfterRestore, AfterReturn, AfterDelete, AfterCleanup;
    hide B.AfterNew, B.AfterRestore, B.AfterReturn, B.AfterDelete;
    match op
    case New(u, now) =>
      BoltNewExactly(st, u, now + ttl);
    case Restore(u, check, now) =>
      BoltRestoreExactly(st, u, check, now + ttl);
    case Return(u, _) =>
      BoltReturnExactly(st, u);
    case Delete(u) =>
      BoltDeleteExactly(st, u);
    case Cleanup(due) =>
      BoltCleanup(st, due);
    case IsInUse(u) =>
      SlotOf(st, u);
    case Ttl(u, _) =>
      SlotOf(st, u);
  }

  // -------------------------------------------------------------------------
  // The two stores side by side

  /**
   A call that both stores promise to serve alike: a fresh clock reading, a uuid bolt
   takes as a key, one handle out at most, handles given back once, nothing expired,
   and no cleanup pass, which only one of them has.
   */
  predicate Common(t: Table, used: set<int>, ttl: int, op: Op) {
    && R.Stamps(op, ttl) !! used
    && match op
       case New(u, now) => B.ValidKey(u) && InRange(now + ttl)
       case Restore(u, check, now) =>
         B.ValidKey(u) && InRange(now + ttl) && (u in t ==> t[u].out == 0 && t[u].expires >= check)
       case Return(u, _) => u in t && t[u].out > 0
       case Ttl(u, check) => u in t ==> t[u].expires >= check
       case Cleanup(_) => false
       case _ => true
  }

  predicate CommonRun(t: Table, used: set<int>, ttl: int, ops: seq<Op>)
    decreases |ops|
  {
    ops == [] ||
    (Common(t, used, ttl, ops[0]) &&
     CommonRun(Apply(t, ttl, ops[0]).0, used + R.Stamps(ops[0], ttl), ttl, ops[1..]))
  }

  function Canonicals(replies: seq<Reply>): (r: seq<Reply>)
    ensures |r| == |replies| && forall i :: 0 <= i < |r| ==> r[i] == Canonical(replies[i])
  {
    seq(|replies|, i requires 0 <= i < |replies| => Canonical(replies[i]))
  }

  lemma {:induction false} MemRunsCommon(w: R.World, ttl: int, ops: seq<Op>)
    requires R.Inv(w) && CommonRun(OfMem(w.st), w.used, ttl, ops)
    ensures R.FreshRun(w, ttl, ops)
    ensures R.Replies(w, ttl, ops) == Replies(OfMem(w.st), ttl, ops)
    decreases |ops|
  {
    if ops != [] {
      MemStep(w, ttl, ops[0]);
      R.StepKeepsInv(w, ttl, ops[0]);
      MemRunsCommon(R.Next(w, ttl, ops[0]), ttl, ops[1..]);
    }
  }

  lemma CommonBoltStep(st: B.State, used: set<int>, ttl: int, op: Op)
    requires B.Sound(st) && st.data.Some? && Common(OfBolt(st), used, ttl, op)
    ensures BoltMatches(B.Apply(st, ttl, op), Apply(OfBolt(st), ttl, op))
  {
    BoltMatchesExactly(st, ttl, op);
    if !op.Cleanup? {
      SlotOf(st, op.uuid);
    }
    hide Decoded, B.Expiry, B.ValidKey, InRange, B.Apply, Apply;
  }

  lemma {:induction false} BoltRunsCommon(st: B.State, used: set<int>, ttl: int, ops: seq<Op>)
    requires B.Sound(st) && st.data.Some? && CommonRun(OfBolt(st), used, ttl, ops)
    ensures Canonicals(B.Replies(st, ttl, ops)) == Replies(OfBolt(st), ttl, ops)
    decreases |ops|
  {
    hide Common, OfBolt, B.Sound, Canonical;
    if ops != [] {
      CommonBoltStep(st, used, ttl, ops[0]);
      B.StepKeepsSound(st, ttl, ops[0]);
      B.StepKeepsData(st, ttl, ops[0]);
      var (next, head) := B.Apply(st, ttl, ops[0]);
      hide B.Apply, Apply;
      BoltRunsCommon(next, used + R.Stamps(ops[0], ttl), ttl, ops[1..]);
      var tail := B.Replies(next, ttl, ops[1..]);
      assert Canonicals([head] + tail) == [Canonical(head)] + Canonicals(tail);
    }
  }

  /** A bolt database that once held sessions and holds none now. */
  const EMPTIED := B.EMPTY.(data := Some({}))

  /**
   An empty in-memory store and an emptied bolt store answer every such run alike, call
   by call, up to the name of the error for a duplicate.
   */
  lemma StoresAgree(ttl: int, ops: seq<Op>)
    requires CommonRun(map[], {}, ttl, ops)
    ensures R.Replies(R.START, ttl, ops) == Canonicals(B.Replies(EMPTIED, ttl, ops))
  {
    assert OfMem(R.START.st) == map[];
    MemRunsCommon(R.START, ttl, ops);
    assert OfBolt(EMPTIED) == map[];
    BoltRunsCommon(EMPTIED, {}, ttl, ops);
  }

  /** Some Delete comes before the first New. */
  predicate DeletesFirst(ops: seq<Op>) {
    ops != [] && (ops[0].Delete? || (!ops[0].New? && DeletesFirst(ops[1..])))
  }

  /** The first call on a fresh database: only Delete finds out that the bucket of session data is missing. */
  lemma FirstCall(used: set<int>, ttl: int, op: Op)
    requires Common(map[], used, ttl, op)
    ensures op.New? ==> B.Apply(B.EMPTY, ttl, op) == B.Apply(EMPTIED, ttl, op)
    ensures op.Delete? ==>
      B.Apply(B.EMPTY, ttl, op).1 == Panicked && B.Apply(EMPTIED, ttl, op).1 == Failed(SessNotFound)
    ensures !op.New? && !op.Delete? ==>
      && B.Apply(B.EMPTY, ttl, op).1 == B.Apply(EMPTIED, ttl, op).1
      && B.Apply(B.EMPTY, ttl, op).0 == B.EMPTY && B.Apply(EMPTIED, ttl, op).0 == EMPTIED
      && Apply(map[], ttl, op).0 == map[]
  {
    hide B.Expiry, TimeKeys.Key, B.UnixNano, B.ValidKey;
  }

  lemma {:induction false} FreshStart(used: set<int>, ttl: int, ops: seq<Op>)
    requires CommonRun(map[], used, ttl, ops)
    ensures Canonicals(B.Replies(B.EMPTY, ttl, ops)) == Canonicals(B.Replies(EMPTIED, ttl, ops)) <==> !DeletesFirst(ops)
    decreases |ops|
  {
    if ops != [] {
      FirstCall(used, ttl, ops[0]);
      hide B.Apply, Apply, Common;
      var first, emptied := B.Replies(B.EMPTY, ttl, ops), B.Replies(EMPTIED, ttl, ops);
      if ops[0].New? {
        assert first == emptied;
      } else if ops[0].Delete? {
        assert Canonicals(first)[0] != Canonicals(emptied)[0];
      } else {
        FreshStart(used + R.Stamps(ops[0], ttl), ttl, ops[1..]);
        SameHead(first[0], first[1..], emptied[1..]);
        assert first == [first[0]] + first[1..] && emptied == [first[0]] + emptied[1..];
      }
    }
  }

  lemma SameHead(r: Reply, s: seq<Reply>, t: seq<Reply>)
    ensures Canonicals([r] + s) == Canonicals([r] + t) <==> Canonicals(s) == Canonicals(t)
  {
    assert Canonicals([r] + s) == [Canonical(r)] + Canonicals(s);
    assert Canonicals([r] + t) == [Canonical(r)] + Canonicals(t);
    assert ([Canonical(r)] + Canonicals(s))[1..] == Canonicals(s);
    assert ([Canonical(r)] + Canonicals(t))[1..] == Canonicals(t);
  }

  /** From a fresh database, they agree if and only if nothing is deleted before the first session is opened. */
  lemma FreshStoresAgreeExactly(ttl: int, ops: seq<Op>)
    requires CommonRun(map[], {}, ttl, ops)
    ensures R.Replies(R.START, ttl, ops) == Canonicals(B.Replies(B.EMPTY, ttl, ops)) <==> !DeletesFirst(ops)
  {
    StoresAgree(ttl, ops);
    FreshStart({}, ttl, ops);
  }
}
