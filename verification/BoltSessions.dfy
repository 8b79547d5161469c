/**
 The bolt session store (sessions/boltdb.go): two buckets that index each other, uuid
 to time key and time key to uuid, and the set of sessions in use.

 A bolt database is a transactional map of maps.  Each call of the class works on its
 own copy of the buckets and writes them back only where the transaction commits.
 */
module BoltSessions {
  import opened Options
  import opened SessionApi
  import opened TimeKeys

  /**
   The buckets bUUIDTS, bTSUUID, bInUse, and bUUID.  The last holds one sub-bucket for
   each session; it does not exist until the first session is opened.
   */
  datatype State = State(keyOf: map<string, Bytes>, idAt: map<Bytes, string>, inUse: set<string>,
                         data: Option<set<string>>)

  const EMPTY := State(map[], map[], {}, None)

  // bolt.MaxKeySize
  const MAX_KEY_SIZE := 32768

  /** Put refuses the empty key and a key that is too long. */
  predicate ValidKey(uuid: string) {
    0 < |uuid| <= MAX_KEY_SIZE
  }

  /** time.Time.UnixNano of a time outside of the range of an int64 wraps around. */
  function UnixNano(t: int): (x: int64)
    ensures -TWO_63 <= t < TWO_63 ==> x == t
  {
    var r := t % TWO_64;
    if r < TWO_63 then r else r - TWO_64
  }

  /** It is the int64 that differs from the time by a multiple of 2 to the 64. */
  lemma UnixNanoWraps(t: int) returns (turns: int)
    ensures UnixNano(t) == t - turns * 0x1_0000_0000_0000_0000
    ensures -0x8000_0000_0000_0000 <= UnixNano(t) < 0x8000_0000_0000_0000
  {
    turns := t / TWO_64 + if t % TWO_64 < TWO_63 then 0 else 1;
  }

  /** The time a stored key stands for. */
  function Expiry(key: Bytes): int64 {
    Varint(Reversed(key))
  }

  /** openSessionBoltDB: both buckets on the way to the session's data exist afterwards. */
  function Opened(data: Option<set<string>>, uuid: string): Option<set<string>> {
    Some({uuid} + if data.Some? then data.value else {})
  }

  /** OpenSessionsBoltDB on a database left by an earlier process. */
  function Reopened(st: State): State {
    st.(inUse := {})
  }

  function AfterNew(st: State, uuid: string, at: int): (State, Reply) {
    if uuid in st.keyOf then (st, Failed(UUIDDup))
    else if !ValidKey(uuid) then (st, Failed(KeyRefused))
    else
      var key := Key(UnixNano(at));
      (State(st.keyOf[uuid := key], st.idAt[key := uuid], st.inUse + {uuid}, Opened(st.data, uuid)), Handle(uuid))
  }

  function AfterRestore(st: State, uuid: string, check: int, at: int): (State, Reply) {
    if !ValidKey(uuid) then (st, Failed(KeyRefused))
    else if uuid !in st.keyOf then (st, Failed(SessNotFound))
    else if Expiry(st.keyOf[uuid]) < check then (st, Failed(SessExpired))
    else
      var key := Key(UnixNano(at));
      var idAt := (st.idAt - {st.keyOf[uuid]})[key := uuid];
      (State(st.keyOf[uuid := key], idAt, st.inUse + {uuid}, Opened(st.data, uuid)), Handle(uuid))
  }

  /** Without the bucket of session data, the program calls a method of a nil bucket and panics. */
  function AfterDelete(st: State, uuid: string): (State, Reply) {
    if uuid in st.inUse then (st, Failed(SessInUse))
    else if st.data.None? then (st, Panicked)
    else if uuid !in st.keyOf then (st, Failed(SessNotFound))
    else
      (State(st.keyOf - {uuid}, st.idAt - {st.keyOf[uuid]}, st.inUse, Some(st.data.value - {uuid})), Done)
  }

  function AfterReturn(st: State, uuid: string): (State, Reply) {
    if uuid !in st.keyOf || uuid !in st.inUse then (st, Failed(SessNotFound))
    else (st.(inUse := st.inUse - {uuid}), Done)
  }

  function AnswerIsInUse(st: State, uuid: string): Reply {
    if uuid !in st.keyOf then Failed(SessNotFound) else Used(uuid in st.inUse)
  }

  function AnswerTtl(st: State, uuid: string, check: int): Reply {
    if uuid !in st.keyOf then Failed(SessNotFound)
    else if Expiry(st.keyOf[uuid]) < check then FailedWith(SessExpired, Expiry(st.keyOf[uuid]))
    else Expires(Expiry(st.keyOf[uuid]))
  }

  /** The cleanup of this store is empty. */
  function Apply(st: State, ttl: int, op: Op): (State, Reply) {
    match op
    case New(uuid, now) => AfterNew(st, uuid, now + ttl)
    case Restore(uuid, check, now) => AfterRestore(st, uuid, check, now + ttl)
    case Return(uuid, _) => AfterReturn(st, uuid)
    case Delete(uuid) => AfterDelete(st, uuid)
    case IsInUse(uuid) => (st, AnswerIsInUse(st, uuid))
    case Ttl(uuid, check) => (st, AnswerTtl(st, uuid, check))
    case Cleanup(_) => (st, Done)
  }

  // -------------------------------------------------------------------------
  // The code

  class SessionsBoltDB {
    var st: State  // the committed database
    const ttl: int

    constructor Open(db: State, ttl: int)
      ensures st == Reopened(db) && this.ttl == ttl
    {
      this.ttl := ttl;
      st := State(db.keyOf, db.idAt, {}, db.data);
    }

    /** Writes the key of a new expiry in both time buckets of a transaction. */
    method Stamp(tx: State, uuid: string, now: int) returns (r: State)
      ensures var key := Key(UnixNano(now + ttl));
              r == tx.(keyOf := tx.keyOf[uuid := key], idAt := tx.idAt[key := uuid])
    {
      var bufDate := EncodeTime(UnixNano(now + ttl));
      var key := bufDate[..];
      r := tx.(keyOf := tx.keyOf[uuid := key], idAt := tx.idAt[key := uuid]);
    }

    method OpenSession(uuid: string)
      modifies this
      ensures st == old(st).(data := Opened(old(st).data, uuid))
    {
      var bucket := if st.data.Some? then st.data.value else {};
      st := st.(data := Some({uuid} + bucket));
    }

    method New(uuid: string, now: int) returns (s: string, err: Option<Error>)
      modifies this
      ensures (st, HandleOr(s, err)) == AfterNew(old(st), uuid, now + ttl)
    {
      var tx := st;
      if uuid in tx.keyOf {
        return "", Some(UUIDDup);
      }
      if !ValidKey(uuid) {
        return "", Some(KeyRefused);
      }
      tx := Stamp(tx, uuid, now);
      tx := tx.(inUse := tx.inUse + {uuid});
      st := tx;
      OpenSession(uuid);
      return uuid, None;
    }

    method Restore(uuid: string, check: int, now: int) returns (s: string, err: Option<Error>)
      modifies this
      ensures (st, HandleOr(s, err)) == AfterRestore(old(st), uuid, check, now + ttl)
    {
      var tx := st;
      if !ValidKey(uuid) {
        return "", Some(KeyRefused);
      }
      tx := tx.(inUse := tx.inUse + {uuid});
      if uuid !in tx.keyOf {
        return "", Some(SessNotFound);
      }
      var buf := tx.keyOf[uuid];
      tx := tx.(idAt := tx.idAt - {buf});
      var nano := DecodeTime(buf);
      if nano < check {
        return "", Some(SessExpired);
      }
      tx := Stamp(tx, uuid, now);
      st := tx;
      OpenSession(uuid);
      return uuid, None;
    }

    method Delete(uuid: string) returns (panicked: bool, err: Option<Error>)
      modifies this
      ensures (st, if panicked then Panicked else DoneOr(err)) == AfterDelete(old(st), uuid)
    {
      var tx := st;
      if uuid in tx.inUse {
        return false, Some(SessInUse);
      }
      if tx.data.None? {
        return true, None;
      }
      tx := tx.(data := Some(tx.data.value - {uuid}));
      if uuid !in tx.keyOf {
        return false, Some(SessNotFound);
      }
      tx := tx.(idAt := tx.idAt - {tx.keyOf[uuid]});
      tx := tx.(keyOf := tx.keyOf - {uuid});
      st := tx;
      return false, None;
    }

    method Return(uuid: string) returns (err: Option<Error>)
      modifies this
      ensures (st, DoneOr(err)) == AfterReturn(old(st), uuid)
    {
      var tx := st;
      if uuid !in tx.keyOf {
        return Some(SessNotFound);
      }
      if uuid !in tx.inUse {
        return Some(SessNotFound);
      }
      tx := tx.(inUse := tx.inUse - {uuid});
      st := tx;
      return None;
    }

    method IsInUse(uuid: string) returns (used: bool, err: Option<Error>)
      ensures AnswerIsInUse(st, uuid) == if err.Some? then Failed(err.value) else Used(used)
    {
      if uuid !in st.keyOf {
        return false, Some(SessNotFound);
      }
      return uuid in st.inUse, None;
    }

    /** An expired session comes with its expiry and an error. */
    method Ttl(uuid: string, check: int) returns (at: int, err: Option<Error>)
      ensures AnswerTtl(st, uuid, check) ==
        match err
        case None => Expires(at)
        case Some(e) => if e.SessExpired? then FailedWith(e, at) else Failed(e)
    {
      if uuid !in st.keyOf {
        return 0, Some(SessNotFound);
      }
      at := DecodeTime(st.keyOf[uuid]);
      if at < check {
        return at, Some(SessExpired);
      }
      return at, None;
    }
  }

  // -------------------------------------------------------------------------
  // What every run keeps

  /** Each entry from a time key to a uuid is backed by the entry the other way. */
  ghost predicate Backed(st: State) {
    forall k :: k in st.idAt ==> st.idAt[k] in st.keyOf && st.keyOf[st.idAt[k]] == k
  }

  /** Stored keys are keys of times, sessions in use are known, every session has its data and no one else has. */
  ghost predicate Sound(st: State) {
    && Backed(st)
    && (forall u :: u in st.keyOf ==> ValidKey(u) && st.keyOf[u] == Key(Expiry(st.keyOf[u])))
    && st.inUse <= st.keyOf.Keys
    && st.keyOf.Keys == if st.data.Some? then st.data.value else {}
  }

  /** The two time buckets are inverse maps. */
  ghost predicate Inverse(st: State) {
    Backed(st) && forall u :: u in st.keyOf ==> st.keyOf[u] in st.idAt && st.idAt[st.keyOf[u]] == u
  }

  predicate IsError(reply: Reply) {
    reply.Failed? || reply.FailedWith? || reply.Panicked?
  }

  lemma StampedExpiry(x: int64)
    ensures Expiry(Key(x)) == x
  {
    KeyRoundTrip(x);
  }

  lemma StampKeepsSound(st: State, uuid: string, at: int)
    requires Sound(st) && ValidKey(uuid)
    ensures var key := Key(UnixNano(at));
            var idAt := if uuid in st.keyOf then st.idAt - {st.keyOf[uuid]} else st.idAt;
            Sound(State(st.keyOf[uuid := key], idAt[key := uuid], st.inUse + {uuid}, Opened(st.data, uuid)))
  {
    StampedExpiry(UnixNano(at));
    hide Key, Expiry, UnixNano, ValidKey;
  }

  /** Any call, with any clock and any caller. */
  lemma StepKeepsSound(st: State, ttl: int, op: Op)
    requires Sound(st)
    ensures Sound(Apply(st, ttl, op).0)
    ensures IsError(Apply(st, ttl, op).1) ==> Apply(st, ttl, op).0 == st
  {
    hide Key, Expiry, UnixNano, ValidKey;
    if Apply(st, ttl, op).1.Handle? {
      StampKeepsSound(st, op.uuid, op.now + ttl);
    }
  }

  /** The bucket of session data never goes away again. */
  lemma StepKeepsData(st: State, ttl: int, op: Op)
    requires st.data.Some?
    ensures Apply(st, ttl, op).0.data.Some?
  {
    hide Key, Expiry, UnixNano, ValidKey;
  }

  lemma {:induction false} RunKeepsSound(st: State, ttl: int, ops: seq<Op>)
    requires Sound(st)
    ensures Sound(Run(st, ttl, ops))
    decreases |ops|
  {
    if ops != [] {
      StepKeepsSound(st, ttl, ops[0]);
      RunKeepsSound(Apply(st, ttl, ops[0]).0, ttl, ops[1..]);
    }
  }

  function Run(st: State, ttl: int, ops: seq<Op>): State
    decreases |ops|
  {
    if ops == [] then st else Run(Apply(st, ttl, ops[0]).0, ttl, ops[1..])
  }

  function Replies(st: State, ttl: int, ops: seq<Op>): seq<Reply>
    decreases |ops|
  {
    if ops == [] then []
    else [Apply(st, ttl, ops[0]).1] + Replies(Apply(st, ttl, ops[0]).0, ttl, ops[1..])
  }

  lemma ReopenKeepsSound(st: State)
    requires Sound(st)
    ensures Sound(Reopened(st))
  {
  }

  /** The expiry u got is not in use by another session. */
  ghost predicate KeyFree(st: State, u: string, at: int) {
    forall v :: v in st.keyOf && v != u ==> Expiry(st.keyOf[v]) != UnixNano(at)
  }

  lemma RestampInverse(st: State, n: State, u: string, key: Bytes)
    requires Inverse(st) && Backed(n) && n.keyOf == st.keyOf[u := key]
    requires n.idAt == (if u in st.keyOf then st.idAt - {st.keyOf[u]} else st.idAt)[key := u]
    ensures Inverse(n) <==> forall v :: v in st.keyOf && v != u ==> st.keyOf[v] != key
  {
    forall v | v in st.keyOf && v != u && st.keyOf[v] != key
      ensures n.keyOf[v] in n.idAt && n.idAt[n.keyOf[v]] == v
    {
      assert st.idAt[st.keyOf[v]] == v;
    }
    if v :| v in st.keyOf && v != u && st.keyOf[v] == key {
      assert n.keyOf[v] == key;
    }
  }

  /** Stored keys are keys of times, so that expiries differ where keys do. */
  lemma KeyFreeExactly(st: State, u: string, at: int)
    requires Sound(st)
    ensures KeyFree(st, u, at) <==> forall v :: v in st.keyOf && v != u ==> st.keyOf[v] != Key(UnixNano(at))
  {
    StampedExpiry(UnixNano(at));
    hide Key, Expiry, UnixNano, ValidKey, Backed;
  }

  lemma StampedBuckets(st: State, ttl: int, op: Op)
    requires Sound(st) && Apply(st, ttl, op).1.Handle? && (op.New? || op.Restore?)
    ensures var n, key := Apply(st, ttl, op).0, Key(UnixNano(op.now + ttl));
            && n.keyOf == st.keyOf[op.uuid := key] && Backed(n)
            && n.idAt == (if op.uuid in st.keyOf then st.idAt - {st.keyOf[op.uuid]} else st.idAt)[key := op.uuid]
  {
    hide Key, Expiry, UnixNano, ValidKey, Backed;
    StepKeepsSound(st, ttl, op);
  }

  /** New and Restore keep the two buckets inverse exactly when they take an expiry that no other session has. */
  lemma StampKeepsInverse(st: State, ttl: int, op: Op)
    requires Sound(st) && Inverse(st) && (op.New? || op.Restore?) && Apply(st, ttl, op).1.Handle?
    ensures Inverse(Apply(st, ttl, op).0) <==> KeyFree(st, op.uuid, op.now + ttl)
  {
    hide Key, UnixNano, Inverse, Backed, KeyFree, Apply, Sound;
    KeyFreeExactly(st, op.uuid, op.now + ttl);
    StampedBuckets(st, ttl, op);
    RestampInverse(st, Apply(st, ttl, op).0, op.uuid, Key(UnixNano(op.now + ttl)));
  }

  lemma OthersKeepInverse(st: State, ttl: int, op: Op)
    requires Sound(st) && Inverse(st) && !Apply(st, ttl, op).1.Handle?
    ensures Inverse(Apply(st, ttl, op).0)
  {
    hide Key, Expiry, UnixNano, ValidKey;
  }

  lemma OnlyOpeningGivesHandles(st: State, ttl: int, op: Op)
    requires Apply(st, ttl, op).1.Handle?
    ensures op.New? || op.Restore?
  {
    hide Key, Expiry, UnixNano, ValidKey;
  }

  /** A session that is opened gets an expiry that is not in use. */
  ghost predicate StampsFree(st: State, ttl: int, op: Op) {
    Apply(st, ttl, op).1.Handle? ==> (op.New? || op.Restore?) && KeyFree(st, op.uuid, op.now + ttl)
  }

  lemma StepInverseExactly(st: State, ttl: int, op: Op)
    requires Sound(st) && Inverse(st)
    ensures Inverse(Apply(st, ttl, op).0) <==> StampsFree(st, ttl, op)
  {
    hide Apply, Inverse, Sound, KeyFree;
    if Apply(st, ttl, op).1.Handle? {
      OnlyOpeningGivesHandles(st, ttl, op);
      StampKeepsInverse(st, ttl, op);
    } else {
      OthersKeepInverse(st, ttl, op);
    }
  }

  /** Each session that is opened on the run gets an expiry that is not in use. */
  ghost predicate FreeRun(st: State, ttl: int, ops: seq<Op>)
    decreases |ops|
  {
    ops == [] || (StampsFree(st, ttl, ops[0]) && FreeRun(Apply(st, ttl, ops[0]).0, ttl, ops[1..]))
  }

  ghost predicate AlwaysInverse(st: State, ttl: int, ops: seq<Op>)
    decreases |ops|
  {
    Inverse(st) && (ops == [] || AlwaysInverse(Apply(st, ttl, ops[0]).0, ttl, ops[1..]))
  }

  /** On a run the buckets are inverse throughout if and only if no session opened takes an expiry that another has. */
  lemma {:induction false} RunInverseExactly(st: State, ttl: int, ops: seq<Op>)
    requires Sound(st) && Inverse(st)
    ensures AlwaysInverse(st, ttl, ops) <==> FreeRun(st, ttl, ops)
    ensures FreeRun(st, ttl, ops) ==> Inverse(Run(st, ttl, ops))
    decreases |ops|
  {
    hide Apply, Inverse, Sound, StampsFree;
    if ops != [] {
      StepKeepsSound(st, ttl, ops[0]);
      StepInverseExactly(st, ttl, ops[0]);
      if Inverse(Apply(st, ttl, ops[0]).0) {
        RunInverseExactly(Apply(st, ttl, ops[0]).0, ttl, ops[1..]);
      }
    }
  }

  /** The stamps of the run, as the buckets will hold them. */
  function Stamps(op: Op, ttl: int): set<int> {
    match op
    case New(_, now) => {UnixNano(now + ttl)}
    case Restore(_, _, now) => {UnixNano(now + ttl)}
    case _ => {}
  }

  /** No clock reading of the run repeats, none gives an expiry that was given out before. */
  predicate DistinctRun(used: set<int>, ttl: int, ops: seq<Op>)
    decreases |ops|
  {
    ops == [] || (Stamps(ops[0], ttl) !! used && DistinctRun(used + Stamps(ops[0], ttl), ttl, ops[1..]))
  }

  ghost predicate Stamped(st: State, used: set<int>) {
    forall u :: u in st.keyOf ==> Expiry(st.keyOf[u]) in used
  }

  lemma StepKeepsStamped(st: State, used: set<int>, ttl: int, op: Op)
    requires Stamped(st, used)
    ensures Stamped(Apply(st, ttl, op).0, used + Stamps(op, ttl))
  {
    if op.New? || op.Restore? {
      StampedExpiry(UnixNano(op.now + ttl));
    }
    hide Key, Expiry, UnixNano, ValidKey;
  }

  lemma {:induction false} DistinctIsFree(st: State, used: set<int>, ttl: int, ops: seq<Op>)
    requires Stamped(st, used) && DistinctRun(used, ttl, ops)
    ensures FreeRun(st, ttl, ops)
    decreases |ops|
  {
    if ops != [] {
      StepKeepsStamped(st, used, ttl, ops[0]);
      DistinctIsFree(Apply(st, ttl, ops[0]).0, used + Stamps(ops[0], ttl), ttl, ops[1..]);
      if Apply(st, ttl, ops[0]).1.Handle? {
        OnlyOpeningGivesHandles(st, ttl, ops[0]);
      }
      hide Apply, Expiry, UnixNano;
    }
  }

  /** With distinct timestamps, the buckets are inverse at the end of every run from an empty database. */
  lemma RunFromEmptyIsInverse(ttl: int, ops: seq<Op>)
    requires DistinctRun({}, ttl, ops)
    ensures Inverse(Run(EMPTY, ttl, ops)) && AlwaysInverse(EMPTY, ttl, ops)
  {
    DistinctIsFree(EMPTY, {}, ttl, ops);
    RunInverseExactly(EMPTY, ttl, ops);
  }

  /** From the epoch on, the time bucket lists the sessions by expiry. */
  lemma KeysListByExpiry(st: State, u: string, v: string)
    requires Sound(st) && u in st.keyOf && v in st.keyOf
    requires Expiry(st.keyOf[u]) >= 0 && Expiry(st.keyOf[v]) >= 0
    ensures Below(st.keyOf[u], st.keyOf[v]) <==> Expiry(st.keyOf[u]) < Expiry(st.keyOf[v])
  {
    KeyOrderIsChronological(Expiry(st.keyOf[u]), Expiry(st.keyOf[v]));
  }

  // -------------------------------------------------------------------------
  // What callers see

  function Answer(st: State, ttl: int, op: Op): Reply {
    Apply(st, ttl, op).1
  }

  /** Only New of an unknown session and Restore of a known one open it, under a uuid of 1 to 32768 bytes. */
  lemma OpensExactly(st: State, ttl: int, u: string, check: int, now: int)
    requires Sound(st)
    ensures var known := Answer(st, ttl, IsInUse(u)) != Failed(SessNotFound);
            && Answer(st, ttl, New(u, now)) == (if known then Failed(UUIDDup)
                                                else if 1 <= |u| <= 32768 then Handle(u) else Failed(KeyRefused))
            && (Answer(st, ttl, Restore(u, check, now)) == Handle(u) ==> known)
            && (!known ==> Answer(st, ttl, Restore(u, check, now)) ==
                           Failed(if 1 <= |u| <= 32768 then SessNotFound else KeyRefused))
  {
    hide Key, Expiry, UnixNano;
  }

  lemma OpenedState(st: State, ttl: int, op: Op)
    requires Sound(st) && Answer(st, ttl, op).Handle? && (op.New? || op.Restore?)
    requires -TWO_63 <= op.now + ttl < TWO_63
    ensures var n, u := Apply(st, ttl, op).0, op.uuid;
            Answer(st, ttl, op) == Handle(u) && ValidKey(u)
            && u in n.keyOf && u in n.inUse && Expiry(n.keyOf[u]) == op.now + ttl
  {
    StampedExpiry(UnixNano(op.now + ttl));
    hide Key, Expiry, UnixNano;
  }

  lemma AnswersOfOpen(n: State, ttl: int, u: string, at: int, check: int, now: int)
    requires ValidKey(u) && u in n.keyOf && u in n.inUse && Expiry(n.keyOf[u]) == at
    ensures Answer(n, ttl, IsInUse(u)) == Used(true)
    ensures Answer(n, ttl, Ttl(u, check)) == if at < check then FailedWith(SessExpired, at) else Expires(at)
    ensures Answer(n, ttl, Restore(u, check, now)) == if at < check then Failed(SessExpired) else Handle(u)
    ensures Answer(n, ttl, New(u, now)) == Failed(UUIDDup)
    ensures Answer(n, ttl, Delete(u)) == Failed(SessInUse)
    ensures forall h :: Answer(n, ttl, Return(u, h)) == Done
  {
    hide Key, Expiry, UnixNano, ValidKey;
  }

  /** A session just opened is in use until it is returned, and has expired once its time to live is over. */
  lemma OpenedSession(st: State, ttl: int, op: Op, check: int, now: int)
    requires Sound(st) && Answer(st, ttl, op).Handle? && (op.New? || op.Restore?)
    requires -0x8000_0000_0000_0000 <= op.now + ttl < 0x8000_0000_0000_0000
    ensures var n, u, at := Apply(st, ttl, op).0, op.uuid, op.now + ttl;
            && Answer(st, ttl, op) == Handle(u)
            && Answer(n, ttl, IsInUse(u)) == Used(true)
            && Answer(n, ttl, Ttl(u, check)) == (if at < check then FailedWith(SessExpired, at) else Expires(at))
            && Answer(n, ttl, Restore(u, check, now)) == (if at < check then Failed(SessExpired) else Handle(u))
            && Answer(n, ttl, New(u, now)) == Failed(UUIDDup)
            && Answer(n, ttl, Delete(u)) == Failed(SessInUse)
            && forall h :: Answer(n, ttl, Return(u, h)) == Done
  {
    hide Apply, Answer, Expiry, Sound, ValidKey;
    OpenedState(st, ttl, op);
    AnswersOfOpen(Apply(st, ttl, op).0, ttl, op.uuid, op.now + ttl, check, now);
  }

  /** A session that was returned is as it was but free: it can be deleted, and not be returned again. */
  lemma ReturnedSession(st: State, ttl: int, u: string, h: nat, check: int, now: int)
    requires Sound(st) && Answer(st, ttl, Return(u, h)) == Done
    ensures var n := Apply(st, ttl, Return(u, h)).0;
            && Answer(st, ttl, IsInUse(u)) == Used(true) && Answer(n, ttl, IsInUse(u)) == Used(false)
            && Answer(n, ttl, Ttl(u, check)) == Answer(st, ttl, Ttl(u, check))
            && Answer(n, ttl, Restore(u, check, now)) == Answer(st, ttl, Restore(u, check, now))
            && Answer(n, ttl, New(u, now)) == Failed(UUIDDup)
            && Answer(n, ttl, Delete(u)) == Done
            && forall again :: Answer(n, ttl, Return(u, again)) == Failed(SessNotFound)
  {
    hide Key, Expiry, UnixNano;
  }

  /** A session that was deleted was free, and can only be opened anew. */
  lemma DeletedSession(st: State, ttl: int, u: string, check: int, now: int)
    requires Sound(st) && Answer(st, ttl, Delete(u)) == Done
    ensures var n := Apply(st, ttl, Delete(u)).0;
            && Answer(st, ttl, IsInUse(u)) == Used(false)
            && Answer(n, ttl, IsInUse(u)) == Failed(SessNotFound)
            && Answer(n, ttl, Ttl(u, check)) == Failed(SessNotFound)
            && Answer(n, ttl, Restore(u, check, now)) == Failed(SessNotFound)
            && Answer(n, ttl, Delete(u)) == Failed(SessNotFound)
            && Answer(n, ttl, New(u, now)) == Handle(u)
            && forall h :: Answer(n, ttl, Return(u, h)) == Failed(SessNotFound)
  {
    hide Key, Expiry, UnixNano;
  }

  /** No call is noticed by another session, and a question by none. */
  lemma OthersSeeNothing(st: State, ttl: int, op: Op, v: string, check: int)
    requires op.IsInUse? || op.Ttl? || op.Cleanup? || op.uuid != v
    ensures var n := Apply(st, ttl, op).0;
            && Answer(n, ttl, IsInUse(v)) == Answer(st, ttl, IsInUse(v))
            && Answer(n, ttl, Ttl(v, check)) == Answer(st, ttl, Ttl(v, check))
  {
    hide Key, Expiry, UnixNano, ValidKey;
  }

  /** After a restart every session is still there with its expiry, and free. */
  lemma ReopenedSession(st: State, ttl: int, u: string, check: int)
    requires Sound(st)
    ensures var n := Reopened(st);
            && Answer(n, ttl, Ttl(u, check)) == Answer(st, ttl, Ttl(u, check))
            && Answer(n, ttl, IsInUse(u)) == (if Answer(st, ttl, IsInUse(u)) == Failed(SessNotFound)
                                              then Failed(SessNotFound) else Used(false))
            && (Answer(st, ttl, IsInUse(u)).Used? ==> Answer(n, ttl, Delete(u)) == Done)
  {
    hide Key, Expiry, UnixNano, ValidKey;
  }

  /** A database in which no session was ever opened cannot be asked to delete one. */
  lemma FirstDeletePanics(u: string)
    ensures AfterDelete(EMPTY, u) == (EMPTY, Panicked)
  {
  }
}
