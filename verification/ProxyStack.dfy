/**
 The handlers a proxied request goes through (router/router.go:210-221): Retry around
 Balance around CircuitBrake around the call to a backend.

 A backend is a function from its address and the number of calls made so far to the
 status code it writes, or to None when it writes none.  Requests are served one at a
 time and no handler panics.
 */
module ProxyStack {
  import opened Options
  import opened RoundRobin

  type Backend = (string, nat) -> Option<int>

  /** gobreaker with its default settings: it opens after more than five failures in a row. */
  datatype Breaker = Breaker(open: bool, failures: nat) {
    function After(success: bool): Breaker {
      if success then Breaker(open, 0) else Breaker(failures + 1 > 5, failures + 1)
    }
  }

  const CLOSED := Breaker(false, 0)

  type Breakers = map<string, Breaker>

  predicate ServerError(code: int) {
    500 <= code < 600
  }

  /** What Balance and CircuitBrake look for: 500 itself is not fatal to them. */
  predicate Fatal(code: int) {
    500 < code < 600
  }

  /** No breaker that is kept has seen a failure. */
  ghost predicate Clean(cbs: Breakers) {
    forall d :: d in cbs ==> cbs[d] == CLOSED
  }

  /** The handler that Balance wraps: in the assembled stack, the circuit breaker. */
  datatype Inner = Braked | Unbraked

  // -------------------------------------------------------------------------
  // One pool as a value

  /** A pool, the breakers, the code on the response writer, and the calls made so far. */
  datatype Gate = Gate(pool: Pool, cbs: Breakers, code: int, calls: nat)

  function Break(cbs: Breakers, dst: string, code: int, calls: nat, backend: Backend): (Breakers, int, nat) {
    var cb := if dst in cbs then cbs[dst] else CLOSED;
    if cb.open then (cbs - {dst}, 500, calls)
    else
      var written := backend(dst, calls);
      var code' := if written.Some? then written.value else code;
      if Fatal(code') then (cbs - {dst}, 500, calls + 1)
      else (cbs[dst := cb.After(true)], code', calls + 1)
  }

  /** One turn of Retry, on the pool that the request resolves to. */
  function Attempt(g: Gate, backend: Backend): Gate {
    var (pool, dst) := Advance(g.pool);
    if dst == "" then Gate(pool, g.cbs, 500, g.calls)
    else
      var (cbs, code, calls) := Break(g.cbs, dst, g.code, g.calls, backend);
      Gate(pool, cbs, code, calls)
  }

  /** All of Retry: the state it leaves and the turns it took. */
  function Retried(g: Gate, times: int, backend: Backend): (Gate, nat)
    decreases times
  {
    if times <= 0 then (g, 0)
    else
      var next := Attempt(g, backend);
      if ServerError(next.code) then
        var (last, turns) := Retried(next, times - 1, backend);
        (last, turns + 1)
      else (next, 1)
  }

  /** After some turns, what is left of Retry is Retry from here. */
  ghost predicate Leads(start: Gate, times: int, g: Gate, turns: nat, backend: Backend) {
    Retried(start, times, backend) ==
    (Retried(g, times - turns, backend).0, Retried(g, times - turns, backend).1 + turns)
  }

  lemma LeadsOn(start: Gate, times: int, g: Gate, turns: nat, backend: Backend)
    requires Leads(start, times, g, turns, backend) && turns < times
    ensures var next := Attempt(g, backend);
            if ServerError(next.code) then Leads(start, times, next, turns + 1, backend)
            else Retried(start, times, backend) == (next, turns + 1)
  {
    hide Attempt;
  }

  function WithPool(ips: map<string, Pools>, verb: string, key: string, p: Pool): map<string, Pools>
    requires verb in ips
  {
    ips[verb := ips[verb][key := p]]
  }

  lemma WithPoolTwice(ips: map<string, Pools>, verb: string, key: string, p: Pool, q: Pool)
    requires verb in ips && key in ips[verb]
    ensures WithPool(WithPool(ips, verb, key, p), verb, key, q) == WithPool(ips, verb, key, q)
    ensures WithPool(ips, verb, key, ips[verb][key]) == ips
  {
    assert ips[verb][key := p][key := q] == ips[verb][key := q];
    assert ips[verb][key := ips[verb][key]] == ips[verb];
  }

  /** All that a request can change: the pools, the breakers, the response code, the calls made. */
  datatype Stack = Stack(ips: map<string, Pools>, cbs: Breakers, code: int, calls: nat) {
    ghost predicate Has(verb: string, key: string) {
      verb in ips && key in ips[verb]
    }

    /** The part that a request for this pool can see. */
    function At(verb: string, key: string): Gate
      requires Has(verb, key)
    {
      Gate(ips[verb][key], cbs, code, calls)
    }

    /** And what becomes of the whole when the part changes. */
    function With(verb: string, key: string, g: Gate): Stack
      requires Has(verb, key)
    {
      Stack(WithPool(ips, verb, key, g.pool), g.cbs, g.code, g.calls)
    }
  }

  /** One turn behind the circuit breaker, in the pool that Next walked into. */
  ghost predicate Turned(a: Stack, verb: string, found: Option<string>, b: Stack, backend: Backend) {
    match found
    case None => b == a.(code := 500)
    case Some(key) => a.Has(verb, key) && b == a.With(verb, key, Attempt(a.At(verb, key), backend))
  }

  /** And without it: a fatal code makes Remove drop the address, or what its code drops, where it looks. */
  ghost predicate TurnedBare(a: Stack, verb: string, urlPath: string, found: Option<string>,
                             removed: Option<string>, b: Stack, backend: Backend) {
    match found
    case None => removed == None && b == a.(code := 500)
    case Some(key) =>
      a.Has(verb, key) &&
      var (p, dst) := Advance(a.ips[verb][key]);
      var ips := WithPool(a.ips, verb, key, p);
      if dst == "" then removed == None && b == Stack(ips, a.cbs, 500, a.calls)
      else
        var written := backend(dst, a.calls);
        var code := if written.Some? then written.value else a.code;
        && b == Stack(b.ips, a.cbs, code, a.calls + 1)
        && (!Fatal(code) ==> removed == None && b.ips == ips)
        && (Fatal(code) ==>
              && Selected(ips[verb].Keys, Normal(urlPath), removed)
              && (removed.None? ==> b.ips == ips)
              && (removed.Some? ==>
                    var q := ips[verb][removed.value];
                    b.ips == WithPool(ips, verb, removed.value, q.(ips := Removed(q.ips, dst)))))
  }

  // -------------------------------------------------------------------------
  // The code

  class ProxyStack {
    const rr: RoundRobin
    var cbs: Breakers
    var code: int   // of the response writer
    var calls: nat  // made to backends so far

    ghost predicate Valid()
      reads this, rr
    {
      rr.Valid() && Clean(cbs)
    }

    constructor (rr: RoundRobin)
      requires rr.Valid()
      ensures Valid() && this.rr == rr && cbs == map[]
    {
      this.rr := rr;
      cbs := map[];
      code := 0;
      calls := 0;
    }

    method Proxy(dst: string, backend: Backend)
      modifies this`code, this`calls
      ensures calls == old(calls) + 1
      ensures code == if backend(dst, old(calls)).Some? then backend(dst, old(calls)).value else old(code)
    {
      var written := backend(dst, calls);
      if written.Some? {
        code := written.value;
      }
      calls := calls + 1;
    }

    method CircuitBrake(dst: string, backend: Backend)
      modifies this`cbs, this`code, this`calls
      ensures (cbs, code, calls) == Break(old(cbs), dst, old(code), old(calls), backend)
    {
      if dst !in cbs {
        cbs := cbs[dst := CLOSED];
      }
      var cb := cbs[dst];
      var failed := true;
      if !cb.open {
        Proxy(dst, backend);
        failed := Fatal(code);
        cbs := cbs[dst := cb.After(!failed)];
      }
      if failed {
        cbs := cbs - {dst};
        code := 500;
      }
      assert cbs == Break(old(cbs), dst, old(code), old(calls), backend).0;
    }

    ghost function Abs(): Stack
      reads this, rr
    {
      Stack(rr.ips, cbs, code, calls)
    }

    /**
     `lang` is the language that httprouter found in front of the path, or "".  The
     ghost results are the pools that Next and, if it is called, Remove walked into.
     */
    method Balance(inner: Inner, verb: string, urlPath: string, lang: string, backend: Backend)
      returns (ghost found: Option<string>, ghost removed: Option<string>)
      requires Valid()
      modifies this, rr
      ensures Valid()
      ensures Selected(PoolsOf(old(rr.ips), verb).Keys, Normal(Stripped(urlPath, lang)), found)
      ensures inner.Braked? ==> removed == None && Turned(old(Abs()), verb, found, Abs(), backend)
      ensures inner.Unbraked? ==> TurnedBare(old(Abs()), verb, urlPath, found, removed, Abs(), backend)
    {
      hide Selected, AllDistinct, Removed, Stripped;
      var path := Stripped(urlPath, lang);
      var dst;
      dst, found := rr.Next(verb, path);
      removed := None;
      if dst == "" {
        code := 500;
        return;
      }
      if inner.Braked? {
        BreakKeepsClean(cbs, dst, code, calls, backend);
        CircuitBrake(dst, backend);
      } else {
        Proxy(dst, backend);
      }
      if Fatal(code) {
        removed := rr.Remove(verb, urlPath, dst);
      }
    }

    /**
     responsewriter.Handler: each request gets a writer of its own.  `key` only names the
     pool that the last two promises are about.
     */
    method Serve(times: int, verb: string, urlPath: string, lang: string, backend: Backend, ghost key: string)
      returns (ghost turns: nat)
      requires Valid()
      modifies this, rr
      ensures Valid() && SameAddresses(old(rr.ips), rr.ips)
      ensures !(501 <= code <= 599)
      ensures Resolved(old(rr.ips), verb, Stripped(urlPath, lang), key) ==>
        Ends(old(Abs()).(code := 0), verb, key, times, turns, Abs(), backend)
      ensures (Resolved(old(rr.ips), verb, Stripped(urlPath, lang), key)
               && CanFailOver(old(rr.ips)[verb][key].ips, times, backend)) ==> !(500 <= code <= 599)
      ensures (Resolved(old(rr.ips), verb, Stripped(urlPath, lang), key) && times > 0
               && old(rr.ips)[verb][key].ips != [] && "" !in old(rr.ips)[verb][key].ips) ==>
        AnsweredBy(old(Abs()).(code := 0).At(verb, key), times, backend, Abs().At(verb, key), turns)
    {
      ghost var start := Abs().(code := 0);
      code := 0;
      assert Abs() == start;
      turns := Retry(times, verb, urlPath, lang, backend, key);
      if Resolved(start.ips, verb, Stripped(urlPath, lang), key) {
        if CanFailOver(start.ips[verb][key].ips, times, backend) {
          Failover(start.At(verb, key), times, backend);
        }
        if times > 0 && start.ips[verb][key].ips != [] && "" !in start.ips[verb][key].ips {
          RetriedCode(start.At(verb, key), times, backend);
        }
      }
    }

    method Retry(times: int, verb: string, urlPath: string, lang: string, backend: Backend, ghost key: string)
      returns (ghost turns: nat)
      requires Valid()
      modifies this, rr
      ensures Valid() && SameAddresses(old(rr.ips), rr.ips)
      ensures if times <= 0 then turns == 0 && code == old(code)
              else !(501 <= code <= 599) && 1 <= turns <= times && (500 <= code <= 599 ==> turns == times)
      ensures Selected(PoolsOf(old(rr.ips), verb).Keys, Normal(Stripped(urlPath, lang)), None) && times > 0 ==>
        code == 500
      ensures Resolved(old(rr.ips), verb, Stripped(urlPath, lang), key) ==>
        Ends(old(Abs()), verb, key, times, turns, Abs(), backend)
    {
      ghost var path, start := Stripped(urlPath, lang), Abs();
      ghost var resolved := Resolved(start.ips, verb, path, key);
      var i := 0;
      turns := 0;
      hide Selected, Resolved, SameAddresses, OnTrack, Ends, Turned, AllDistinct, Clean;
      StartsOnTrack(start, verb, path, key, times, backend);
      while i < times
        invariant Valid() && turns == i && i <= (if times > 0 then times else 0)
        invariant SameAddresses(start.ips, rr.ips)
        invariant if i == 0 then code == start.code else code == 500
        invariant resolved ==> OnTrack(start, verb, key, times, i, Abs(), backend)
      {
        ghost var before := Abs();
        ghost var found, _ := Balance(Braked, verb, urlPath, lang, backend);
        TurnKeepsAddresses(start, before, Abs(), verb, path, found, backend);
        if resolved {
          TurnOnTrack(start, before, Abs(), verb, path, found, key, times, i, backend);
        }
        i := i + 1;
        turns := i;
        if !ServerError(code) {
          return;
        }
      }
      if resolved {
        OutOfTurns(start, verb, key, times, i, Abs(), backend);
      }
    }
  }

  /** The path of a request resolves to the one pool under the key. */
  ghost predicate Resolved(ips: map<string, Pools>, verb: string, path: string, key: string) {
    verb in ips && key in ips[verb] && ResolvesTo(ips[verb].Keys, Normal(path), key)
  }

  /** The pools differ in their cursors at most. */
  ghost predicate SameAddresses(a: map<string, Pools>, b: map<string, Pools>) {
    && a.Keys == b.Keys
    && (forall m :: m in a ==> a[m].Keys == b[m].Keys)
    && (forall m, k :: m in a && k in a[m] ==> a[m][k].ips == b[m][k].ips)
  }

  /** So the path finds the same pools. */
  lemma SameKeys(a: map<string, Pools>, b: map<string, Pools>, verb: string)
    requires SameAddresses(a, b)
    ensures PoolsOf(a, verb).Keys == PoolsOf(b, verb).Keys
  {
  }

  lemma WithPoolKeepsAddresses(a: map<string, Pools>, b: map<string, Pools>, verb: string, key: string, p: Pool)
    requires SameAddresses(a, b) && verb in b && key in b[verb] && p.ips == b[verb][key].ips
    ensures SameAddresses(a, WithPool(b, verb, key, p))
  {
  }

  /** One turn moves a cursor at most, whichever pool it walked into. */
  lemma TurnKeepsAddresses(start: Stack, before: Stack, after: Stack, verb: string, path: string,
                           found: Option<string>, backend: Backend)
    requires SameAddresses(start.ips, before.ips) && Clean(before.cbs)
    requires Selected(PoolsOf(before.ips, verb).Keys, Normal(path), found)
    requires Turned(before, verb, found, after, backend)
    ensures SameAddresses(start.ips, after.ips) && !Fatal(after.code)
    ensures Selected(PoolsOf(start.ips, verb).Keys, Normal(path), None) ==> after.code == 500
  {
    SameKeys(start.ips, before.ips, verb);
    if found.Some? {
      AttemptKeepsClean(before.At(verb, found.value), backend);
      WithPoolKeepsAddresses(start.ips, before.ips, verb, found.value,
                             Attempt(before.At(verb, found.value), backend).pool);
    }
    hide SameAddresses;
  }

  /** After some turns, the one pool has moved on and the rest of Retry is as if it began here. */
  ghost predicate OnTrack(start: Stack, verb: string, key: string, times: int, turns: nat, now: Stack,
                          backend: Backend) {
    && start.Has(verb, key) && now.Has(verb, key)
    && now.ips == WithPool(start.ips, verb, key, now.ips[verb][key])
    && Leads(start.At(verb, key), times, now.At(verb, key), turns, backend)
  }

  /** What is left after all of Retry, and the turns it took. */
  ghost predicate Ends(start: Stack, verb: string, key: string, times: int, turns: nat, end: Stack,
                       backend: Backend) {
    start.Has(verb, key) &&
    var (last, n) := Retried(start.At(verb, key), times, backend);
    turns == n && end == start.With(verb, key, last)
  }

  lemma StartsOnTrack(start: Stack, verb: string, path: string, key: string, times: int, backend: Backend)
    ensures Resolved(start.ips, verb, path, key) ==> OnTrack(start, verb, key, times, 0, start, backend)
  {
    if start.Has(verb, key) {
      WithPoolTwice(start.ips, verb, key, start.ips[verb][key], start.ips[verb][key]);
    }
    hide ResolvesTo;
  }

  /** Where the path resolves, each turn is the next one on the one pool. */
  lemma TurnOnTrack(start: Stack, before: Stack, after: Stack, verb: string, path: string, found: Option<string>,
                    key: string, times: int, turns: nat, backend: Backend)
    requires Resolved(start.ips, verb, path, key) && SameAddresses(start.ips, before.ips)
    requires Selected(PoolsOf(before.ips, verb).Keys, Normal(path), found)
    requires OnTrack(start, verb, key, times, turns, before, backend) && turns < times
    requires Turned(before, verb, found, after, backend)
    ensures if ServerError(after.code) then OnTrack(start, verb, key, times, turns + 1, after, backend)
            else Ends(start, verb, key, times, turns + 1, after, backend)
  {
    SameKeys(start.ips, before.ips, verb);
    assert found == Some(key);
    var g := before.At(verb, key);
    WithPoolTwice(start.ips, verb, key, g.pool, Attempt(g, backend).pool);
    LeadsOn(start.At(verb, key), times, g, turns, backend);
    hide Resolved, ResolvesTo, Selected, SameAddresses, Attempt, Retried;
    assert after == before.With(verb, key, Attempt(g, backend));
  }

  lemma OutOfTurns(start: Stack, verb: string, key: string, times: int, turns: nat, now: Stack, backend: Backend)
    requires OnTrack(start, verb, key, times, turns, now, backend) && turns >= times
    ensures Ends(start, verb, key, times, turns, now, backend)
  {
    assert Retried(now.At(verb, key), times - turns, backend) == (now.At(verb, key), 0);
  }

  /** The path leads to this pool and to no other, in any order of the map. */
  ghost predicate OnlyMatch(keys: set<string>, path: string, key: string) {
    path == key ||
    (path !in keys && Matches(path, key) && forall any :: any in keys && any != key ==> !Matches(path, any))
  }

  /**
   Without the breaker, Remove is given the path with its language in front: it is sure
   to look in the pool that Next chose if and only if that path leads there as well.
   */
  lemma RemoveFindsExactly(keys: set<string>, urlPath: string, lang: string, key: string)
    requires ResolvesTo(keys, Normal(Stripped(urlPath, lang)), key)
    ensures (forall any :: Selected(keys, Normal(urlPath), any) ==> any == Some(key)) <==>
      OnlyMatch(keys, Normal(urlPath), key)
  {
    ResolvesToExactly(keys, Normal(Stripped(urlPath, lang)), key);
    ResolvesToExactly(keys, Normal(urlPath), key);
    var any := SomethingSelected(keys, Normal(urlPath));
    hide Selected;
  }

  lemma SomethingSelected(keys: set<string>, path: string) returns (any: Option<string>)
    ensures Selected(keys, path, any)
  {
    if path in keys {
      any := Some(path);
    } else if k :| k in keys && Matches(path, k) {
      any := Some(k);
    } else {
      any := None;
    }
  }

  /**
   So a backend with a fatal answer is dropped from the pool that it came from, and only
   there, whenever the path with its language leads to that pool alone; and when the path
   leads to no pool at all, the backend stays.
   */
  lemma BareTurnDropsExactly(a: Stack, verb: string, urlPath: string, key: string, removed: Option<string>, b: Stack,
                             backend: Backend)
    requires TurnedBare(a, verb, urlPath, Some(key), removed, b, backend)
    requires Advance(a.ips[verb][key]).1 != ""
    ensures var written := backend(Advance(a.ips[verb][key]).1, a.calls);
            b.code == (if written.Some? then written.value else a.code) && b.calls == a.calls + 1
    ensures var (p, dst) := Advance(a.ips[verb][key]);
            !(501 <= b.code <= 599) ==> b.ips == WithPool(a.ips, verb, key, p)
    ensures var (p, dst) := Advance(a.ips[verb][key]);
            501 <= b.code <= 599 ==>
            && (OnlyMatch(a.ips[verb].Keys, Normal(urlPath), key) ==>
                  b.ips == WithPool(a.ips, verb, key, p.(ips := Removed(p.ips, dst))))
            && (Selected(a.ips[verb].Keys, Normal(urlPath), None) ==> b.ips == WithPool(a.ips, verb, key, p))
  {
    var (p, dst) := Advance(a.ips[verb][key]);
    var ips := WithPool(a.ips, verb, key, p);
    assert ips[verb].Keys == a.ips[verb].Keys;
    WithPoolTwice(a.ips, verb, key, p, p.(ips := Removed(p.ips, dst)));
    hide Removed, Matches;
  }

  /**
   For instance, a failing backend is looked for under the path with its language
   in front, where its pool may not be found.
   */
  lemma RemoveMissesThePrefix()
    ensures Stripped("/pt/a", "pt") == "/a"
    ensures Selected({"/a"}, "/a", Some("/a")) && Selected({"/a"}, "/pt/a", None)
  {
    assert BeforeWildcard("/a") == "/a" by {
      assert BeforeWildcard("/a"[1..]) == "a" by { assert "/a"[1..] == "a" && "a"[1..] == ""; }
    }
    assert "/pt/a"[1] == 'p' && "/a"[1] == 'a';
    assert !NamedParam("/pt/a", "/a");
  }

  /** strings.TrimPrefix(path, "/" + lang), where there is a language. */
  function Stripped(path: string, lang: string): string {
    if lang != "" && "/" + lang <= path then path[|lang| + 1..] else path
  }

  /** The language in front of a path is taken away, and nothing else is. */
  lemma StrippedExactly(path: string, lang: string)
    ensures lang != "" ==> Stripped("/" + lang + path, lang) == path
    ensures lang == "" || !("/" + lang <= path) ==> Stripped(path, lang) == path
  {
    assert "/" + lang <= "/" + lang + path;
  }

  // -------------------------------------------------------------------------
  // What holds of every request

  /** The breaker lets no fatal code out, and throws away any breaker that saw one. */
  lemma BreakKeepsClean(cbs: Breakers, dst: string, code: int, calls: nat, backend: Backend)
    requires Clean(cbs)
    ensures Clean(Break(cbs, dst, code, calls, backend).0)
    ensures Break(cbs, dst, code, calls, backend).2 == calls + 1
    ensures !Fatal(Break(cbs, dst, code, calls, backend).1)
  {
  }

  lemma AttemptKeepsClean(g: Gate, backend: Backend)
    requires Clean(g.cbs)
    ensures Clean(Attempt(g, backend).cbs) && !Fatal(Attempt(g, backend).code)
    ensures Attempt(g, backend).pool.ips == g.pool.ips
  {
    var (pool, dst) := Advance(g.pool);
    if dst != "" {
      BreakKeepsClean(g.cbs, dst, g.code, g.calls, backend);
    }
  }

  /** Any request, whatever came before it: the pool keeps its addresses, the breakers stay clean. */
  lemma {:induction false} RetryKeepsPool(g: Gate, times: int, backend: Backend)
    requires Clean(g.cbs)
    ensures var last := Retried(g, times, backend).0;
            Clean(last.cbs) && last.pool.ips == g.pool.ips && (times > 0 ==> !(501 <= last.code <= 599))
    decreases times
  {
    if times > 0 {
      AttemptKeepsClean(g, backend);
      if ServerError(Attempt(g, backend).code) {
        RetryKeepsPool(Attempt(g, backend), times - 1, backend);
      }
    }
  }

  // -------------------------------------------------------------------------
  // Whose code it is

  /**
   What a turn does with a pool that has addresses: the code written, but for 501 to 599,
   and no call to "".  A breaker is there after a success and gone after a failure.
   */
  lemma AttemptCode(g: Gate, backend: Backend)
    requires Clean(g.cbs) && g.pool.ips != []
    ensures var next, c := Attempt(g, backend), if g.pool.actual < |g.pool.ips| then g.pool.actual else 0;
            var dst := g.pool.ips[c];
            var written := backend(dst, g.calls);
            var code := if written.Some? then written.value else g.code;
            && next.code == (if dst == "" || 501 <= code <= 599 then 500 else code)
            && next.calls == g.calls + (if dst == "" then 0 else 1)
            && next.pool == Pool(g.pool.ips, c + 1)
            && next.cbs == (if dst == "" then g.cbs
                            else if 501 <= code <= 599 then g.cbs - {dst} else g.cbs[dst := Breaker(false, 0)])
  {
  }

  /** The address that the t-th call from here goes to, counted from zero. */
  function Callee(p: Pool, t: nat): string
    requires p.ips != []
  {
    p.ips[((if p.actual < |p.ips| then p.actual else 0) + t) % |p.ips|]
  }

  lemma Wraps(c: nat, t: nat, n: nat)
    requires c < n
    ensures ((if c + 1 < n then c + 1 else 0) + t) % n == (c + (t + 1)) % n
  {
    if c + 1 == n {
      PlusDivisor(t, n);
      assert t + n == n * ((t + n) / n) + (t + n) % n && t == n * (t / n) + t % n;
      assert n * (t / n + 1) == n * (t / n) + n;
    }
  }

  lemma SmallRest(c: nat, n: nat)
    requires c < n
    ensures c % n == c
  {
  }

  lemma CalleeAfter(p: Pool, t: nat)
    requires p.ips != []
    ensures var c := if p.actual < |p.ips| then p.actual else 0;
            Callee(Pool(p.ips, c + 1), t) == Callee(p, t + 1)
    ensures Callee(p, 0) == p.ips[if p.actual < |p.ips| then p.actual else 0]
  {
    var c := if p.actual < |p.ips| then p.actual else 0;
    Wraps(c, t, |p.ips|);
    SmallRest(c, |p.ips|);
  }

  /**
   All turns but the last were calls that wrote a server error, or nothing; the last one
   decides the code.
   */
  ghost predicate AnsweredBy(g: Gate, times: int, backend: Backend, last: Gate, n: nat)
    requires g.pool.ips != []
  {
    && 1 <= n <= times && last.calls == g.calls + n
    && (forall t :: 0 <= t < n - 1 ==>
          var written := backend(Callee(g.pool, t), g.calls + t);
          written.None? || 500 <= written.value <= 599)
    && var written := backend(Callee(g.pool, n - 1), g.calls + n - 1);
       var code := if written.Some? then written.value else if n == 1 then g.code else 500;
       && last.code == (if 501 <= code <= 599 then 500 else code)
       && (n == times || !(500 <= code <= 599))
  }

  /**
   So a request that ends without a server error has the code that the last backend wrote,
   or that of the writer if it wrote none; and a server error is retried, 500 itself as well.
   */
  lemma {:induction false} RetriedCode(g: Gate, times: int, backend: Backend)
    requires Clean(g.cbs) && g.pool.ips != [] && "" !in g.pool.ips && times > 0
    ensures var (last, n) := Retried(g, times, backend);
            AnsweredBy(g, times, backend, last, n)
    decreases times
  {
    AttemptCode(g, backend);
    CalleeAfter(g.pool, 0);
    assert Callee(g.pool, 0) in g.pool.ips;
    var next := Attempt(g, backend);
    AttemptKeepsClean(g, backend);
    if 500 <= next.code <= 599 && times > 1 {
      RetriedCode(next, times - 1, backend);
      var (last, n) := Retried(next, times - 1, backend);
      assert Retried(g, times, backend) == (last, n + 1);
      hide Attempt, Retried, Callee;
      ShiftAnswer(g, next, times, backend, last, n);
    }
  }

  lemma ShiftAnswer(g: Gate, next: Gate, times: int, backend: Backend, last: Gate, n: nat)
    requires g.pool.ips != [] && next.calls == g.calls + 1 && next.code == 500
    requires next.pool == Pool(g.pool.ips, (if g.pool.actual < |g.pool.ips| then g.pool.actual else 0) + 1)
    requires AnsweredBy(next, times - 1, backend, last, n)
    requires var written := backend(Callee(g.pool, 0), g.calls); written.None? || 500 <= written.value <= 599
    ensures AnsweredBy(g, times, backend, last, n + 1)
  {
    hide Callee;
    forall t | 0 <= t < n ensures
      var written := backend(Callee(g.pool, t), g.calls + t);
      written.None? || 500 <= written.value <= 599
    {
      if t > 0 {
        CalleeAfter(g.pool, t - 1);
        assert backend(Callee(next.pool, t - 1), next.calls + (t - 1)) == backend(Callee(g.pool, t), g.calls + t);
      }
    }
    CalleeAfter(g.pool, n - 1);
  }

  // -------------------------------------------------------------------------
  // Failover

  /** A backend that always writes a code, and never a server error. */
  ghost predicate Healthy(backend: Backend, dst: string) {
    forall t :: backend(dst, t).Some? && !ServerError(backend(dst, t).value)
  }

  /** How many calls it takes the cursor to get to position j. */
  function Distance(p: Pool, j: nat): nat
    requires j < |p.ips|
  {
    if j >= p.Cursor() then j - p.Cursor() else j + |p.ips| - p.Cursor()
  }

  lemma AttemptAtHealthy(g: Gate, backend: Backend, j: nat)
    requires Clean(g.cbs) && j < |g.pool.ips| && "" !in g.pool.ips
    requires Healthy(backend, g.pool.ips[j]) && Distance(g.pool, j) == 0
    ensures !ServerError(Attempt(g, backend).code)
  {
    assert backend(g.pool.ips[j], g.calls).Some?;
  }

  lemma AttemptComesCloser(g: Gate, backend: Backend, j: nat)
    requires Clean(g.cbs) && j < |g.pool.ips| && "" !in g.pool.ips && Distance(g.pool, j) > 0
    ensures Attempt(g, backend).pool.ips == g.pool.ips
    ensures Distance(Attempt(g, backend).pool, j) == Distance(g.pool, j) - 1
  {
    AttemptKeepsClean(g, backend);
  }

  /** The retries get to a healthy backend at position j before they run out. */
  lemma {:induction false} FailoverWithin(g: Gate, times: int, backend: Backend, j: nat)
    requires Clean(g.cbs) && j < |g.pool.ips| && "" !in g.pool.ips && Healthy(backend, g.pool.ips[j])
    requires Distance(g.pool, j) < times
    ensures !(500 <= Retried(g, times, backend).0.code <= 599)
    ensures Retried(g, times, backend).1 <= Distance(g.pool, j) + 1
    decreases times
  {
    if Distance(g.pool, j) == 0 {
      AttemptAtHealthy(g, backend, j);
    } else {
      AttemptKeepsClean(g, backend);
      AttemptComesCloser(g, backend, j);
      FailoverWithin(Attempt(g, backend), times - 1, backend, j);
    }
  }

  /** One backend at least is healthy, and there is a retry for each address. */
  ghost predicate CanFailOver(ips: seq<string>, times: int, backend: Backend) {
    (exists dst :: dst in ips && Healthy(backend, dst)) && "" !in ips && |ips| <= times
  }

  /**
   Failover: with one healthy backend among n addresses and at least n retries, a
   request ends without a server error after at most n attempts, wherever the cursor
   is and whatever the other backends answer.
   */
  lemma Failover(g: Gate, times: int, backend: Backend)
    requires Clean(g.cbs) && CanFailOver(g.pool.ips, times, backend)
    ensures !(500 <= Retried(g, times, backend).0.code <= 599)
    ensures Retried(g, times, backend).1 <= |g.pool.ips|
  {
    var dst :| dst in g.pool.ips && Healthy(backend, dst);
    var j :| 0 <= j < |g.pool.ips| && g.pool.ips[j] == dst;
    FailoverWithin(g, times, backend, j);
  }

  /** n retries are needed: with one fewer, the cursor may stop right before the healthy backend. */
  lemma FailoverNeedsThemAll(ips: seq<string>, backend: Backend, times: int)
    requires |ips| >= 2 && "" !in ips && times == |ips| - 1 && Healthy(backend, ips[|ips| - 1])
    requires forall i, t :: 0 <= i < |ips| - 1 ==> backend(ips[i], t) == Some(503)
    ensures ServerError(Retried(Gate(Pool(ips, 0), map[], 0, 0), times, backend).0.code)
  {
    StaysDown(Gate(Pool(ips, 0), map[], 0, 0), times, backend);
  }

  lemma {:induction false} StaysDown(g: Gate, times: int, backend: Backend)
    requires Clean(g.cbs) && "" !in g.pool.ips && 0 < times <= |g.pool.ips| - 1 - g.pool.actual
    requires forall i, t :: 0 <= i < |g.pool.ips| - 1 ==> backend(g.pool.ips[i], t) == Some(503)
    ensures ServerError(Retried(g, times, backend).0.code)
    decreases times
  {
    AttemptKeepsClean(g, backend);
    assert Attempt(g, backend).code == 500;
    if times > 1 {
      StaysDown(Attempt(g, backend), times - 1, backend);
    }
  }

  /** A pool without addresses answers every attempt with a server error. */
  lemma {:induction false} EmptyPoolFails(g: Gate, times: int, backend: Backend)
    requires g.pool.ips == [] && times > 0
    ensures Retried(g, times, backend).0.code == 500 && Retried(g, times, backend).1 == times
    decreases times
  {
    if times > 1 {
      EmptyPoolFails(Attempt(g, backend), times - 1, backend);
    }
  }

  /** A run of requests for one pool; each has its own response writer. */
  ghost function Served(g: Gate, times: int, backend: Backend, requests: nat): seq<int>
    decreases requests
  {
    if requests == 0 then []
    else
      var last := Retried(g.(code := 0), times, backend).0;
      [last.code] + Served(last, times, backend, requests - 1)
  }

  /** So no request of any run sees a server error. */
  lemma {:induction false} FailoverOverRuns(g: Gate, times: int, backend: Backend, requests: nat)
    requires Clean(g.cbs) && CanFailOver(g.pool.ips, times, backend)
    ensures forall code :: code in Served(g, times, backend, requests) ==> !(500 <= code <= 599)
    decreases requests
  {
    if requests > 0 {
      var g0 := g.(code := 0);
      Failover(g0, times, backend);
      RetryKeepsPool(g0, times, backend);
      FailoverOverRuns(Retried(g0, times, backend).0, times, backend, requests - 1);
    }
  }
}
