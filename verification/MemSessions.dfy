/**
 The in-memory session store (sessions/memory.go): a map from uuid to session, an
 index of the sessions sorted by expiry, and a counter of handles out.

 `State` and `Apply` say what each call does to the three structures together,
 collisions in the index included; the class is the code, proved to do just that.
 */
module MemSessions {
  import opened Options
  import opened OrderedIndex
  import opened SessionApi

  /** Expiry of each session in the map, the index, and the counter. */
  datatype State = State(live: map<string, int>, index: seq<Entry>, count: map<string, nat>) {
    function Count(uuid: string): nat {
      if uuid in count then count[uuid] else 0
    }

    function Inc(uuid: string): map<string, nat> {
      count[uuid := Count(uuid) + 1]
    }

    function Dec(uuid: string): map<string, nat> {
      count[uuid := if Count(uuid) == 0 then 0 else Count(uuid) - 1]
    }

    /** The test of one cleanup pass, with the guard of `del`. */
    predicate Doomed(e: Entry, due: (string, int) -> bool) {
      due(e.uuid, e.at) && e.uuid in live && Count(e.uuid) == 0
    }

    function DoomedKeys(due: (string, int) -> bool): set<int> {
      set e | e in index && Doomed(e, due) :: e.at
    }

    function DoomedIds(due: (string, int) -> bool): set<string> {
      set e | e in index && Doomed(e, due) :: e.uuid
    }
  }

  const EMPTY := State(map[], [], map[])

  ghost function AfterNew(st: State, uuid: string, at: int): (State, Reply) {
    if uuid in st.live then (st, Failed(SessFound))
    else if HasKey(st.index, at) then (st, Failed(IndexItemFound))
    else (State(st.live[uuid := at], Insert(st.index, Entry(uuid, at)), st.Inc(uuid)), Handle(uuid))
  }

  ghost function AfterRestore(st: State, uuid: string, at: int): (State, Reply) {
    if uuid !in st.live then (st, Failed(SessNotFound))
    else if !HasKey(st.index, st.live[uuid]) then (st, Failed(IndexNotFound))
    else
      var rest := RemoveKey(st.index, st.live[uuid]);
      if HasKey(rest, at) then (State(st.live[uuid := at], rest, st.count), Failed(IndexItemFound))
      else (State(st.live[uuid := at], Insert(rest, Entry(uuid, at)), st.Inc(uuid)), Handle(uuid))
  }

  ghost function AfterReturn(st: State, uuid: string): (State, Reply) {
    if uuid !in st.live then (st, Failed(SessNotFound)) else (st.(count := st.Dec(uuid)), Done)
  }

  /** sessionDec gets to its deferred signal to Close, whether it counts down or not. */
  predicate Signals(st: State, op: Op) {
    op.Return? && op.uuid in st.live && op.uuid in st.count
  }

  /** What Close asks before it goes. */
  ghost predicate Any(count: map<string, nat>) {
    exists u :: u in count && count[u] > 0
  }

  ghost function AfterDelete(st: State, uuid: string): (State, Reply) {
    if uuid !in st.live then (st, Failed(SessNotFound))
    else if st.Count(uuid) > 0 then (st, Failed(SessInUse))
    else if !HasKey(st.index, st.live[uuid]) then (st, Failed(IndexNotFound))
    else (st.(live := st.live - {uuid}, index := RemoveKey(st.index, st.live[uuid])), Done)
  }

  ghost function AnswerIsInUse(st: State, uuid: string): Reply {
    if uuid !in st.live then Failed(SessNotFound) else Used(st.Count(uuid) > 0)
  }

  ghost function AnswerTtl(st: State, uuid: string, check: int): Reply {
    if uuid !in st.live then Failed(SessNotFound)
    else if st.live[uuid] < check then Failed(SessExpired)
    else Expires(st.live[uuid])
  }

  ghost function AfterCleanup(st: State, due: (string, int) -> bool): State {
    st.(live := st.live - st.DoomedIds(due), index := Without(st.index, st.DoomedKeys(due)))
  }

  ghost function Apply(st: State, ttl: int, op: Op): (State, Reply) {
    match op
    case New(uuid, now) => AfterNew(st, uuid, now + ttl)
    case Restore(uuid, _, now) => AfterRestore(st, uuid, now + ttl)
    case Return(uuid, _) => AfterReturn(st, uuid)
    case Delete(uuid) => AfterDelete(st, uuid)
    case IsInUse(uuid) => (st, AnswerIsInUse(st, uuid))
    case Ttl(uuid, check) => (st, AnswerTtl(st, uuid, check))
    case Cleanup(due) => (AfterCleanup(st, due), Done)
  }

  // -------------------------------------------------------------------------
  // The code

  class MemSessions {
    var sessions: map<string, int>  // *session by uuid: its lastSeen field
    var o: Ordered
    var count: map<string, nat>
    const ttl: int

    /** What holds under any clock: the index is strictly sorted and holds only sessions of the map. */
    ghost predicate Valid()
      reads this, o.buf
    {
      o.Indexed(sessions)
    }

    ghost function Abs(): State
      requires Valid()
      reads this, o.buf
    {
      State(sessions, o.View(sessions), count)
    }

    constructor (ttl: int)
      ensures Valid() && fresh(o.buf) && Abs() == EMPTY && this.ttl == ttl
    {
      this.ttl := ttl;
      sessions := map[];
      count := map[];
      var buf := new string[0];
      o := Ordered(buf, 0);
    }

    method SessionInc(uuid: string)
      requires Valid()
      modifies this`count
      ensures Valid() && Abs() == old(Abs()).(count := old(Abs()).Inc(uuid))
    {
      if uuid !in count {
        count := count[uuid := 1];
        return;
      }
      count := count[uuid := count[uuid] + 1];
    }

    /**
     The deferred function sends on `dsignal` if that is not nil: `sends` says that it
     is reached, and the module CloseProtocol has what follows.
     */
    method SessionDec(uuid: string) returns (sends: bool)
      requires Valid()
      modifies this`count
      ensures Valid() && Abs() == old(Abs()).(count := old(Abs()).Dec(uuid))
      ensures sends <==> uuid in old(count)
    {
      if uuid !in count {
        count := count[uuid := 0];
        return false;
      }
      sends := true;
      if count[uuid] <= 0 {
        return;
      }
      count := count[uuid := count[uuid] - 1];
    }

    method SessionAny() returns (any: bool)
      ensures any <==> Any(count)
    {
      var rest := count.Keys;
      while rest != {}
        invariant rest <= count.Keys
        invariant forall u :: u in count.Keys - rest ==> count[u] == 0
        decreases rest
      {
        var u :| u in rest;
        if count[u] > 0 {
          return true;
        }
        rest := rest - {u};
      }
      return false;
    }

    method New(uuid: string, now: int) returns (s: string, err: Option<Error>)
      requires Valid()
      modifies this, o.buf
      ensures Valid() && (o.buf == old(o.buf) || fresh(o.buf))
      ensures (Abs(), HandleOr(s, err)) == AfterNew(old(Abs()), uuid, now + ttl)
    {
      hide HasKey, Insert, StrictlySorted;
      if uuid in sessions {
        return "", Some(SessFound);
      }
      var seen := sessions[uuid := now + ttl];
      ghost var st := Abs();
      assert o.View(seen) == st.index;
      var r, e := o.Set(uuid, seen);
      if e.Some? {
        assert o.Items() == old(o.Items());
        return "", Some(IndexItemFound);
      }
      o, sessions := r, seen;
      SessionInc(uuid);
      return uuid, None;
    }

    method Restore(uuid: string, now: int) returns (s: string, err: Option<Error>)
      requires Valid()
      modifies this, o.buf
      ensures Valid() && (o.buf == old(o.buf) || fresh(o.buf))
      ensures (Abs(), HandleOr(s, err)) == AfterRestore(old(Abs()), uuid, now + ttl)
    {
      hide HasKey, Insert, RemoveKey, StrictlySorted;
      if uuid !in sessions {
        return "", Some(SessNotFound);
      }
      ghost var st := Abs();
      var r, e := o.Del(uuid, sessions);
      if e.Some? {
        assert o.Items() == old(o.Items());
        return "", Some(IndexNotFound);
      }
      o := r;
      assert uuid !in o.Items() by { NotInRest(o.Items(), uuid, st.index, sessions); }
      sessions := sessions[uuid := now + ttl];
      assert o.View(sessions) == RemoveKey(st.index, st.live[uuid]);
      r, e := o.Set(uuid, sessions);
      if e.Some? {
        assert o.Items() == r.Items();
        return "", Some(IndexItemFound);
      }
      o := r;
      SessionInc(uuid);
      return uuid, None;
    }

    method Delete(uuid: string) returns (err: Option<Error>)
      requires Valid()
      modifies this, o.buf
      ensures Valid() && o.buf == old(o.buf)
      ensures (Abs(), DoneOr(err)) == AfterDelete(old(Abs()), uuid)
    {
      hide HasKey, RemoveKey, StrictlySorted;
      if uuid !in sessions {
        return Some(SessNotFound);
      }
      var inUse := SessionCount(uuid);
      if inUse > 0 {
        return Some(SessInUse);
      }
      ghost var st := Abs();
      var r, e := o.Del(uuid, sessions);
      if e.Some? {
        assert o.Items() == old(o.Items());
        return Some(IndexNotFound);
      }
      o := r;
      assert uuid !in o.Items() by { NotInRest(o.Items(), uuid, st.index, sessions); }
      sessions := sessions - {uuid};
      assert o.View(sessions) == RemoveKey(st.index, st.live[uuid]);
      err := None;
    }

    /** No handle is ever waited for: nothing fills the `signal` map that the program looks in here. */
    method Return(uuid: string, ghost handle: nat) returns (sends: bool, err: Option<Error>)
      requires Valid()
      modifies this`count
      ensures Valid()
      ensures (Abs(), DoneOr(err)) == AfterReturn(old(Abs()), uuid)
      ensures sends <==> Signals(old(Abs()), Op.Return(uuid, handle))
    {
      if uuid !in sessions {
        return false, Some(SessNotFound);
      }
      sends := SessionDec(uuid);
      err := None;
    }

    method SessionCount(uuid: string) returns (n: nat)
      requires Valid()
      ensures n == Abs().Count(uuid)
    {
      if uuid !in count {
        return 0;
      }
      n := count[uuid];
    }

    method IsInUse(uuid: string) returns (used: bool, err: Option<Error>)
      requires Valid()
      ensures AnswerIsInUse(Abs(), uuid) == if err.Some? then Failed(err.value) else Used(used)
    {
      if uuid !in sessions {
        return false, Some(SessNotFound);
      }
      if uuid !in count {
        return false, None;
      }
      return count[uuid] > 0, None;
    }

    method Ttl(uuid: string, check: int) returns (at: int, err: Option<Error>)
      requires Valid()
      ensures AnswerTtl(Abs(), uuid, check) == if err.Some? then Failed(err.value) else Expires(at)
    {
      if uuid !in sessions {
        return 0, Some(SessNotFound);
      }
      if sessions[uuid] < check {
        return 0, Some(SessExpired);
      }
      return sessions[uuid], None;
    }

    /**
     One pass of the cleanup goroutine, taken as atomic, with an arbitrary test for
     the program's comparison with the clock.  What `del` deletes from the map during the
     walk is deleted in one step after it.
     */
    method Cleanup(due: (string, int) -> bool)
      requires Valid()
      modifies this, o.buf
      ensures Valid() && o.buf == old(o.buf)
      ensures Abs() == AfterCleanup(old(Abs()), due)
    {
      ghost var st := Abs();
      var live, c := sessions, count;
      var f := (i: nat, e: Entry) => Verdict(
        if due(e.uuid, e.at) && e.uuid in live && !(e.uuid in c && c[e.uuid] > 0) then {e.uuid} else {}, Continue);
      var gone := set i | 0 <= i < o.len && f(i, Entry(o.buf[i], live[o.buf[i]])).drops != {} :: o.buf[i];
      assert gone == st.DoomedIds(due) by { DoomedInBuffer(st, due, f, o.Items(), live, gone); }
      PassMeaning(st, due, f, o.Items(), live);
      hide StrictlySorted, Drawn, Keys, Knows, Walk, Without;
      var r, e := Iter(o, f, sessions);
      o := r;
      DropSessions(gone, due, st);
    }

    /** What the callbacks did to the map, once the records are out of the index. */
    method DropSessions(gone: set<string>, due: (string, int) -> bool, ghost st: State)
      requires Valid() && (sessions, count) == (st.live, st.count) && gone == st.DoomedIds(due)
      requires StrictlySorted(st.index) && forall e :: e in st.index ==> e.uuid in st.live && st.live[e.uuid] == e.at
      requires o.View(sessions) == Without(st.index, st.DoomedKeys(due))
      modifies this`sessions
      ensures Valid() && Abs() == AfterCleanup(st, due)
    {
      hide StrictlySorted, Without;
      ghost var kept := o.Items();
      SurvivorsStay(st, due, kept, sessions);
      sessions := sessions - gone;
      assert kept == o.Items();
    }
  }

  /** Once the entry under its key is gone, the record may change without the index noticing. */
  lemma NotInRest(rest: seq<string>, uuid: string, ix: seq<Entry>, seen: Records)
    requires uuid in seen && (forall p :: p in rest ==> p in seen) && StrictlySorted(ix)
    requires Entries(rest, seen) == RemoveKey(ix, seen[uuid])
    ensures uuid !in rest
  {
    RemoveMeaning(ix, seen[uuid]);
    assert forall i :: 0 <= i < |rest| ==> Entries(rest, seen)[i] in RemoveKey(ix, seen[uuid]);
  }

  /** The callback of a pass: the doomed record itself, and never a stop. */
  ghost predicate Dooms(f: Callback, st: State, due: (string, int) -> bool) {
    forall i, e :: f(i, e) == Verdict(if st.Doomed(e, due) then {e.uuid} else {}, Continue)
  }

  lemma DoomedByWalk(st: State, due: (string, int) -> bool, f: Callback)
    requires Dooms(f, st, due)
    ensures Walk(st.index, f, 0) == Finished(st.DoomedIds(due))
  {
    WalkGoesOn(st.index, f, 0);
    var n := WalkMeaning(st.index, f, 0);
    assert n == |st.index|;
    forall p | p in st.DoomedIds(due) ensures p in Walk(st.index, f, 0).drops {
      var e :| e in st.index && st.Doomed(e, due) && e.uuid == p;
      var k :| 0 <= k < |st.index| && st.index[k] == e;
      assert p in f(k, st.index[k]).drops;
    }
  }

  /** So the pass hands over the doomed records, and all of them can be deleted. */
  lemma PassMeaning(st: State, due: (string, int) -> bool, f: Callback, items: seq<string>, live: Records)
    requires Dooms(f, st, due) && live == st.live
    requires (forall p :: p in items ==> p in live) && st.index == Entries(items, live) && StrictlySorted(st.index)
    ensures Knows(f, live) && Walk(st.index, f, 0) == Finished(st.DoomedIds(due))
    ensures st.DoomedIds(due) <= live.Keys && Drawn(st.DoomedIds(due), live, st.index)
    ensures Keys(st.DoomedIds(due), live) == st.DoomedKeys(due)
  {
    DoomedByWalk(st, due, f);
    forall p | p in st.DoomedIds(due) ensures p in items {
      var e :| e in st.index && st.Doomed(e, due) && e.uuid == p;
      var i :| 0 <= i < |items| && st.index[i] == e;
    }
    DrawnFrom(st.DoomedIds(due), items, live);
  }

  lemma {:induction false} WalkGoesOn(ix: seq<Entry>, f: Callback, i: nat)
    requires i <= |ix| && forall i, e :: f(i, e).next.Continue?
    ensures Walk(ix, f, i).Finished?
    decreases |ix| - i
  {
    if i < |ix| {
      WalkGoesOn(ix, f, i + 1);
    }
  }

  lemma DoomedInBuffer(st: State, due: (string, int) -> bool, f: Callback,
                       items: seq<string>, live: Records, gone: set<string>)
    requires Dooms(f, st, due)
    requires (forall p :: p in items ==> p in live) && st.index == Entries(items, live)
    requires gone == set i | 0 <= i < |items| && f(i, Entry(items[i], live[items[i]])).drops != {} :: items[i]
    ensures gone == st.DoomedIds(due)
  {
    forall p | p in gone ensures p in st.DoomedIds(due) {
      var i :| 0 <= i < |items| && f(i, Entry(items[i], live[items[i]])).drops != {} && items[i] == p;
      assert st.index[i] in st.index;
    }
    forall p | p in st.DoomedIds(due) ensures p in gone {
      var e :| e in st.index && st.Doomed(e, due) && e.uuid == p;
      var i :| 0 <= i < |items| && st.index[i] == e;
    }
  }

  lemma SurvivorsStay(st: State, due: (string, int) -> bool, rest: seq<string>, live: Records)
    requires StrictlySorted(st.index) && forall e :: e in st.index ==> e.uuid in live && live[e.uuid] == e.at
    requires forall p :: p in rest ==> p in live
    requires Entries(rest, live) == Without(st.index, st.DoomedKeys(due))
    ensures StrictlySorted(Entries(rest, live))
    ensures forall p :: p in rest ==> p in live - st.DoomedIds(due)
    ensures Entries(rest, live - st.DoomedIds(due)) == Entries(rest, live)
  {
    WithoutMeaning(st.index, st.DoomedKeys(due));
    forall p | p in rest ensures p !in st.DoomedIds(due) {
      var i :| 0 <= i < |rest| && rest[i] == p;
      assert Entries(rest, live)[i] in Without(st.index, st.DoomedKeys(due));
    }
  }
}
