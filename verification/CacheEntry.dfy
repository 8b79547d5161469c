/**
 The write-through cache over one session (sessions/cache.go), above either kind of
 session data: the in-memory one refuses to set a key twice (sessions/memory.go), the
 bolt one overwrites it (sessions/boltdb.go).
 */
module CacheEntry {
  import opened Options

  datatype Error = DataNotFound | DataKeyExist

  datatype Kind = Rejecting | Overwriting

  type Data = map<string, string>

  datatype Call = Get(key: string) | Set(key: string, value: string) | Del(key: string)

  datatype Reply = Found(value: string) | Done | Failed(error: Error)

  // -------------------------------------------------------------------------
  // The bare session

  function Bare(kind: Kind, data: Data, call: Call): (Data, Reply) {
    match call
    case Get(key) =>
      if key in data then (data, Found(data[key])) else (data, Failed(DataNotFound))
    case Set(key, value) =>
      if kind.Rejecting? && key in data then (data, Failed(DataKeyExist)) else (data[key := value], Done)
    case Del(key) =>
      if key in data then (data - {key}, Done) else (data, Failed(DataNotFound))
  }

  /** MemEntry and SessionBoltDB. */
  class Entry {
    const kind: Kind
    var data: Data

    constructor (kind: Kind)
      ensures this.kind == kind && data == map[]
    {
      this.kind := kind;
      data := map[];
    }

    method Get(key: string) returns (value: string, err: Option<Error>)
      ensures Bare(kind, data, Call.Get(key)) == (data, if err.Some? then Failed(err.value) else Found(value))
    {
      if key !in data {
        return "", Some(DataNotFound);
      }
      return data[key], None;
    }

    method Set(key: string, value: string) returns (err: Option<Error>)
      modifies this`data
      ensures (data, DoneOr(err)) == Bare(kind, old(data), Call.Set(key, value))
    {
      if kind.Rejecting? && key in data {
        return Some(DataKeyExist);
      }
      data := data[key := value];
      return None;
    }

    method Del(key: string) returns (err: Option<Error>)
      modifies this`data
      ensures (data, DoneOr(err)) == Bare(kind, old(data), Call.Del(key))
    {
      if key !in data {
        return Some(DataNotFound);
      }
      data := data - {key};
      return None;
    }
  }

  function DoneOr(err: Option<Error>): Reply {
    if err.Some? then Failed(err.value) else Done
  }

  // -------------------------------------------------------------------------
  // The cache in front of it

  /** Every cached key holds the value that the session holds. */
  ghost predicate Coherent(data: Data, store: Data) {
    forall k :: k in store ==> k in data && data[k] == store[k]
  }

  /** One call on the cached session: the session, the cache, and the reply. */
  function Cached(kind: Kind, data: Data, store: Data, call: Call): (Data, Data, Reply) {
    match call
    case Get(key) =>
      if key in store then (data, store, Found(store[key]))
      else
        var reply := Bare(kind, data, call).1;
        (data, if reply.Found? then store[key := reply.value] else store, reply)
    case Set(key, value) =>
      var (data', reply) := Bare(kind, data, call);
      (data', if reply.Done? then store[key := value] else store, reply)
    case Del(key) =>
      var (data', reply) := Bare(kind, data, call);
      (data', store - {key}, reply)
  }

  class CacheEntry {
    const sess: Entry
    var store: Data

    constructor (sess: Entry)
      ensures this.sess == sess && store == map[]
    {
      this.sess := sess;
      store := map[];
    }

    method Get(key: string) returns (value: string, err: Option<Error>)
      modifies this`store
      ensures (sess.data, store, if err.Some? then Failed(err.value) else Found(value)) ==
        Cached(sess.kind, sess.data, old(store), Call.Get(key))
    {
      if key in store {
        return store[key], None;
      }
      value, err := sess.Get(key);
      if err.Some? {
        return "", err;
      }
      store := store[key := value];
    }

    method Set(key: string, value: string) returns (err: Option<Error>)
      modifies this`store, sess`data
      ensures (sess.data, store, DoneOr(err)) == Cached(sess.kind, old(sess.data), old(store), Call.Set(key, value))
    {
      err := sess.Set(key, value);
      if err.Some? {
        return;
      }
      store := store[key := value];
    }

    method Del(key: string) returns (err: Option<Error>)
      modifies this`store, sess`data
      ensures (sess.data, store, DoneOr(err)) == Cached(sess.kind, old(sess.data), old(store), Call.Del(key))
    {
      store := store - {key};
      err := sess.Del(key);
    }
  }

  // -------------------------------------------------------------------------
  // Runs

  function BareRun(kind: Kind, data: Data, calls: seq<Call>): seq<Reply>
    decreases |calls|
  {
    if calls == [] then []
    else [Bare(kind, data, calls[0]).1] + BareRun(kind, Bare(kind, data, calls[0]).0, calls[1..])
  }

  function CachedRun(kind: Kind, data: Data, store: Data, calls: seq<Call>): seq<Reply>
    decreases |calls|
  {
    if calls == [] then []
    else
      var (data', store', reply) := Cached(kind, data, store, calls[0]);
      [reply] + CachedRun(kind, data', store', calls[1..])
  }

  lemma CachedStep(kind: Kind, data: Data, store: Data, call: Call)
    requires Coherent(data, store)
    ensures var (data', store', reply) := Cached(kind, data, store, call);
            (data', reply) == Bare(kind, data, call) && Coherent(data', store')
  {
  }

  /** No run of calls can tell the cached session from the bare one. */
  lemma {:induction false} CacheIsTransparent(kind: Kind, data: Data, store: Data, calls: seq<Call>)
    requires Coherent(data, store)
    ensures CachedRun(kind, data, store, calls) == BareRun(kind, data, calls)
    decreases |calls|
  {
    if calls != [] {
      CachedStep(kind, data, store, calls[0]);
      var (data', store', _) := Cached(kind, data, store, calls[0]);
      CacheIsTransparent(kind, data', store', calls[1..]);
    }
  }

  /** And only coherence makes it so: any other cache content shows in some run. */
  lemma TransparentOnlyIfCoherent(kind: Kind, data: Data, store: Data)
    ensures (forall calls :: CachedRun(kind, data, store, calls) == BareRun(kind, data, calls))
            <==> Coherent(data, store)
  {
    if Coherent(data, store) {
      forall calls ensures CachedRun(kind, data, store, calls) == BareRun(kind, data, calls) {
        CacheIsTransparent(kind, data, store, calls);
      }
    } else {
      var k :| k in store && !(k in data && data[k] == store[k]);
      var calls := [Call.Get(k)];
      assert CachedRun(kind, data, store, calls)[0] == Found(store[k]);
      assert BareRun(kind, data, calls)[0] == Bare(kind, data, calls[0]).1;
      assert CachedRun(kind, data, store, calls) != BareRun(kind, data, calls);
    }
  }

  // -------------------------------------------------------------------------
  // What the replies mean, by the calls alone

  /** The value of the last Set of the key that was done, unless a Del that was done came after it. */
  function Last(calls: seq<Call>, replies: seq<Reply>, key: string): Option<string>
    requires |calls| == |replies|
    decreases |calls|
  {
    if calls == [] then None
    else
      var n := |calls| - 1;
      if replies[n] == Done && calls[n].Set? && calls[n].key == key then Some(calls[n].value)
      else if replies[n] == Done && calls[n].Del? && calls[n].key == key then None
      else Last(calls[..n], replies[..n], key)
  }

  /** What the session holds after the calls. */
  function DataAfter(kind: Kind, data: Data, calls: seq<Call>): Data
    decreases |calls|
  {
    if calls == [] then data else DataAfter(kind, Bare(kind, data, calls[0]).0, calls[1..])
  }

  lemma {:induction false} LastCall(kind: Kind, data: Data, calls: seq<Call>, call: Call)
    ensures |BareRun(kind, data, calls)| == |calls|
    ensures BareRun(kind, data, calls + [call]) ==
      BareRun(kind, data, calls) + [Bare(kind, DataAfter(kind, data, calls), call).1]
    ensures DataAfter(kind, data, calls + [call]) == Bare(kind, DataAfter(kind, data, calls), call).0
    decreases |calls|
  {
    if calls == [] {
      assert [] + [call] == [call] && [call][1..] == [];
    } else {
      var next := Bare(kind, data, calls[0]).0;
      LastCall(kind, next, calls[1..], call);
      assert (calls + [call])[1..] == calls[1..] + [call];
    }
  }

  lemma {:induction false} HeldIsLast(kind: Kind, calls: seq<Call>, key: string)
    ensures |BareRun(kind, map[], calls)| == |calls|
    ensures var data := DataAfter(kind, map[], calls);
            Last(calls, BareRun(kind, map[], calls), key) == if key in data then Some(data[key]) else None
    decreases |calls|
  {
    if calls != [] {
      var n := |calls| - 1;
      HeldIsLast(kind, calls[..n], key);
      LastCall(kind, map[], calls[..n], calls[n]);
      assert calls == calls[..n] + [calls[n]];
      var replies := BareRun(kind, map[], calls);
      assert replies[..n] == BareRun(kind, map[], calls[..n]);
      hide BareRun, DataAfter;
    }
  }

  /**
   Every reply of a cached session, over either kind, from when it was new: Get finds the
   value that was set last and not deleted since, Set is refused exactly on such a key of
   a session that does not overwrite, and Del exactly where there is none.
   */
  lemma RepliesMean(kind: Kind, calls: seq<Call>, call: Call)
    ensures var before := CachedRun(kind, map[], map[], calls);
            |before| == |calls| &&
            var last := Last(calls, before, call.key);
            CachedRun(kind, map[], map[], calls + [call]) == before + [
              match call
              case Get(_) => if last.Some? then Found(last.value) else Failed(DataNotFound)
              case Set(_, _) => if last.Some? && kind == Rejecting then Failed(DataKeyExist) else Done
              case Del(_) => if last.Some? then Done else Failed(DataNotFound)
            ]
  {
    CacheIsTransparent(kind, map[], map[], calls);
    CacheIsTransparent(kind, map[], map[], calls + [call]);
    LastCall(kind, map[], calls, call);
    HeldIsLast(kind, calls, call.key);
    hide BareRun, CachedRun, DataAfter, Last;
  }

  /**
   And the cache is one: a value that was found or set is kept until it is deleted, and is
   found again without asking the session.
   */
  lemma KeepsWhatItSaw(kind: Kind, data: Data, store: Data, call: Call, later: Data)
    ensures var (_, kept, reply) := Cached(kind, data, store, call);
            && (call.Get? && reply.Found? ==> Cached(kind, later, kept, Get(call.key)) == (later, kept, reply))
            && (call.Set? && reply == Done ==>
                  Cached(kind, later, kept, Get(call.key)) == (later, kept, Found(call.value)))
            && (call.Del? ==> Cached(kind, later, kept, Get(call.key)).2 == Bare(kind, later, Get(call.key)).1)
            && forall k :: k in store && k != call.key ==> k in kept && kept[k] == store[k]
  {
  }
}
