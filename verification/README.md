# droute in Dafny

droute is an HTTP proxy and router written in Go. This project models the parts of it that
hold state that is hard to get right, and proves what they promise.

| file | models |
|---|---|
| `OrderedIndex.dfy` | the sorted index, its in-place shifting, transactions and iteration (`sessions/memstorage.go`) |
| `MemSessions.dfy`, `MemRuns.dfy` | the in-memory session store and all its runs (`sessions/memory.go`) |
| `CloseProtocol.dfy` | how its Close waits for the handles out (`sessions/memory.go`) |
| `TimeKeys.dfy`, `BoltSessions.dfy` | the bolt session store and its time keys (`sessions/boltdb.go`) |
| `SessionApi.dfy`, `SessionTable.dfy` | the common interface, and one table that both stores refine (`sessions/interfaces.go`) |
| `CacheEntry.dfy` | the write-through cache over one session (`sessions/cache.go`) |
| `RoundRobin.dfy`, `ProxyStack.dfy` | the balancer, and Retry around Balance around CircuitBrake around a backend (`router/`) |
| `Bucket.dfy` | the leaky bucket as a protocol of channels (`middlewares/bucket`) |
| `DocCache.dfy` | the document cache over files that eviction removes (`middlewares/cache`) |
| `Base64.dfy`, `BasicAuth.dfy` | the Authorization parser and the password store (`middlewares/basicauth`) |

The methods have the form of the code: fields reassigned, buffers shifted and reversed in
place, loops. Each is proved equal to a function of the old state, and the lemmas are about
those functions and their runs. The bucket and Close are goroutines over channels, so they are
state machines whose steps are rendezvous and whose schedules are arbitrary.

How things are taken:

- A time is an integer of nanoseconds, and each reading of the clock is a parameter of the
  call that takes it. Time keys are `int64` as in the code, and a wrapped `UnixNano` is modelled.
- A `*session` is its uuid, and `Records` gives the `lastSeen` field behind each pointer. The
  index holds pointers, so it sees a record change under it: this is why Restore has to take
  the entry out before it changes the key.
- A Go map is walked in an arbitrary order, chosen anew at each step.
- A bolt database is a value that a transaction copies, and writes back when it commits.
- gobreaker is a closed or open breaker with a count of failures in a row. A backend is an
  arbitrary function from its address and the number of calls so far to a status code or none.
- Strings are bytes; paths, hash names and white space are ASCII.
- Each handle on a session that New or Restore gives out has a name of its own, and Return is
  told which one comes back. The stores look at its uuid only.
- A digest is an opaque string for each hash name. The hash objects are never written to, so
  `h.Sum(pass)` is the password followed by the digest of nothing, and this is what is modelled.

Where the code departs from its evident intent, the code is modelled and the lemma says exactly
when it does what it is for:

- Cleanup removes the free sessions that have *not* expired (`CleanupRemovesTheUnexpired`).
- Restore with a repeated clock reading leaves a session out of the index (`RestoreKeepsInSync`,
  `RepeatedReadingLosesSession`). Deleting that session then takes the index entry of the other
  one (`LostSessionTakesAnother`).
- Nothing stops a handle from being returned twice. The counters are right exactly as long as no
  handle comes back that is not out while its session is held (`RunCountedExactly`), and a held
  session can be deleted exactly after such a Return with one handle out (`StrayReturnExactly`).
- A Return that takes the lock between a signal and the next wait of Close blocks everything for
  good (`StuckExactly`, `StuckForever`). With no new handles it takes two of them out for that if
  each is given back once by its holder (`CanGetStuckExactly`), and one otherwise
  (`CanGetStuckIdlyExactly`).
- Time keys sort as time from the epoch on; with earlier times, exactly the pairs with
  `x == y || x + y >= 0` keep their order (`KeyOrderExactly`).
- Delete on a bolt database in which no session was ever opened calls a method of a nil bucket
  and panics (`FirstDeletePanics`). This and all else that bolt does otherwise than the in-memory
  store is in `BoltMatchesExactly`.
- On a fresh database the two stores agree exactly if nothing is deleted before the first session
  is opened (`FreshStoresAgreeExactly`).
- The two time buckets of bolt are inverse exactly as long as no session opened takes an expiry that
  another session has (`RunInverseExactly`).
- A Commit that meets a key that is missing or repeated stops, and may leave the shared buffer
  partly shifted (`Commit`, `Iter`).
- A pattern without a wildcard also serves the paths that only begin with it (`PlainMatchesExactly`).
- Remove also takes out the address before the target, unless the target is first
  (`RemoveExactly`). It is given the path with its language prefix, while Next is not: it is sure
  to find the pool of the failing backend exactly if that path leads there alone
  (`RemoveFindsExactly`, `BareTurnDropsExactly`, and `RemoveMissesThePrefix` for a path that does
  not). Behind the circuit breaker it is never called (`Balance`).
- A page stored over a longer one keeps the tail of the old one: a request spoils the cache
  exactly if it puts a shorter page over an old copy that eviction spares (`FaithfulExactly`,
  `HitAfterShrinking`).
- The headers of a document are stored next to its body, under its name and `.header`. If another
  document has that name, the headers go over its page: a request harms a copy exactly in this way
  or by shrinking (`FaithfulExactly`). Documents are safe from it, whatever their pages, exactly if no
  name is that of another's header file (`ApartExactly`, `NamesClash`).
- The fields of a document are digested without separators, so different documents can share a
  key (`SharedKeyExactly`, `KeysTellApart`, `KeysCollide`), and then one is served for the other
  (`SharedKeyServesTheOther`).
- A password with a colon can be set, but no header lets its user in (`ColonLocksOut`),
  although section 2 of RFC 7617 allows colons in passwords.

## Model

| member | source | states |
|---|---|---|
| `OrderedIndex.Ordered.Search` | sessions/memstorage.go:21-33 | bisection finds the place that splits the keys, and whether the key is there |
| `OrderedIndex.Ordered.Set` | sessions/memstorage.go:38-49 | fails on a key that is there and then changes nothing; else the buffer holds the sorted insertion and stays strictly sorted |
| `OrderedIndex.Ordered.Del` | sessions/memstorage.go:53-65 | fails on a key that is not there and then changes nothing; else exactly the entry under the key is gone |
| `OrderedIndex.InsertMeaning` | sessions/memstorage.go:38-49 | insertion keeps the order and adds exactly the new entry |
| `OrderedIndex.RemoveMeaning` | sessions/memstorage.go:53-65 | removal keeps the order and takes away exactly the entries under the key |
| `OrderedIndex.Transaction.Del` | sessions/memstorage.go:76-82 | records the pointer, or says it was recorded already |
| `OrderedIndex.Transaction.Commit` | sessions/memstorage.go:84-94 | in any order of the map it terminates; it succeeds exactly if all keys are in the list and distinct, and then empties the transaction and leaves the survivors |
| `OrderedIndex.WithoutMeaning` | sessions/memstorage.go:84-94 | the survivors are strictly sorted and are the entries whose key was not deleted |
| `OrderedIndex.OneMoreKey` | sessions/memstorage.go:84-94 | whichever pointer the loop takes next, deleting it succeeds exactly if the keys so far and this one are distinct keys of the list |
| `OrderedIndex.Iter` | sessions/memstorage.go:98-116 | for a callback that hands over any records: an error of it but the stop leaves the buffer untouched; otherwise, the stop included, success exactly if what was handed over has distinct keys of the list, and then these are gone |
| `OrderedIndex.WalkMeaning` | sessions/memstorage.go:98-116 | the callback is run on a prefix in ascending order that ends at the stop, and what it handed over there is what is committed |
| `OrderedIndex.AbortMeaning` | sessions/memstorage.go:101-108 | a walk that is broken off ran the callback in order up to its first error that is no stop, and has just this error |
| `MemSessions.MemSessions.New` | sessions/memory.go:212-234 | what New does to map, index and counter together, collisions in the index included |
| `MemSessions.MemSessions.Restore` | sessions/memory.go:236-258 | the entry leaves the index before its key changes; a collision leaves the session out of it |
| `MemSessions.MemSessions.Delete` | sessions/memory.go:260-289 | refuses unknown and used sessions; else map and index lose the session |
| `MemSessions.MemSessions.Return` | sessions/memory.go:321-344 | one handle less on the counter, never below zero; whether it gets to the signal to Close |
| `MemSessions.MemSessions.SessionAny` | sessions/memory.go:203-210 | whether some counter is positive, in any order of the map |
| `MemSessions.MemSessions.IsInUse` | sessions/memory.go:346-356 | whether the counter of a known session is positive |
| `MemSessions.MemSessions.Ttl` | sessions/memory.go:358-372 | the expiry of a known session that has not expired |
| `MemSessions.MemSessions.Cleanup` | sessions/memory.go:109-119 | one pass over the index with any test, the guard of del and the commit |
| `MemSessions.NotInRest` | sessions/memory.go:245-250 | once the entry under its key is deleted, the index no longer points to the record, so the key may change |
| `MemRuns.NewKeepsInSync` | sessions/memory.go:212-234 | New keeps index and map in step under any clock, and fails in the index exactly on the expiry of another session, changing nothing |
| `MemRuns.RestoreKeepsInSync` | sessions/memory.go:236-258 | Restore keeps them in step if and only if the new expiry is not that of another session, with its reply in each case |
| `MemRuns.DeleteKeepsInSync` | sessions/memory.go:260-289 | Delete keeps them in step and never fails in the index |
| `MemRuns.CleanupMeaning` | sessions/memory.go:109-119 | a pass removes exactly the sessions that are due and have no handle out, from both |
| `MemRuns.CleanupRemovesTheUnexpired` | sessions/memory.go:111-112 | with the test of the code, a session is removed if and only if it is free and has not expired |
| `MemRuns.StepKeepsInv` | sessions/memory.go:212-344 | a call with a fresh reading, whatever it gives back, keeps index and map in step and only known sessions counted, and does not fail in the index |
| `MemRuns.CountedExactly` | sessions/memory.go:165-201 | a call keeps each counter equal to the handles out if and only if it does not return a handle that is not out for a session that is held |
| `MemRuns.RunCountedExactly` | sessions/memory.go:165-201 | on a run the counters are right throughout if and only if no such handle is returned on it |
| `MemRuns.HandlesAreSafe` | sessions/memory.go:266-318 | where the counters are right, no call removes a session that someone holds a handle on; a session created, again or not, starts with exactly one |
| `MemRuns.RunKeepsInv` | sessions/memory.go:212-344 | the same over every run |
| `MemRuns.RunFromStart` | sessions/memory.go:95-103 | from an empty store: index equal to map and no failure of the index, whatever is returned; without stray handles each counter is the number of handles out, and each held session is there |
| `MemRuns.RepeatedReadingLosesSession` | sessions/memory.go:249-253 | a repeated reading in Restore leaves a session in the map and not in the index |
| `MemRuns.LostSessionTakesAnother` | sessions/memory.go:245-284 | for any two sessions: after Restore of one with the expiry of the other, its Delete succeeds and leaves the other in the map without an entry, so that its own Delete and Restore fail |
| `MemRuns.StrayReturnExactly` | sessions/memory.go:180-194 | after a Return a session can be deleted under its holder if and only if the handle was stray and one handle is out |
| `MemRuns.DoubleReturnFreesHeldSession` | sessions/memory.go:180-194 | with any two handles out on a session, one of them returned twice lets it be deleted under the other |
| `CloseProtocol.RunKeepsInv` | sessions/memory.go:131-194 | on every schedule, who holds the lock to signal and why Close may be waiting |
| `CloseProtocol.CallsAreARun` | sessions/memory.go:212-344 | whatever Close does, the calls of a schedule are a run of the store, in their order |
| `CloseProtocol.ReturnedExactly` | sessions/memory.go:145-155 | on every schedule, Close has returned if and only if it once looked when all counters were zero |
| `CloseProtocol.ReturnedWithoutHandles` | sessions/memory.go:145-155 | with no stray handles, if and only if it once looked when nobody held a handle |
| `CloseProtocol.StuckExactly` | sessions/memory.go:159-187 | a run ends with the signal lost if and only if its last step is a Return that takes the lock while Close is between its receive and its lock |
| `CloseProtocol.StuckForever` | sessions/memory.go:187 | and then no step of anyone is possible |
| `CloseProtocol.StuckIsReachable` | sessions/memory.go:159-187 | from any store with two handles out, a schedule that gets there by giving them back |
| `CloseProtocol.CanGetStuckExactly` | sessions/memory.go:145-187 | handles given back once each by their holders, and none given out, can get Close stuck if and only if it begins with two or more out |
| `CloseProtocol.CanGetStuckIdlyExactly` | sessions/memory.go:145-187 | if a handle may also come back where nobody holds the session, if and only if it begins with any out |
| `CloseProtocol.OrderlyRunsAreShort` | sessions/memory.go:145-160 | without it and without new handles, no run gets stuck, and each step of Close and each Return uses up the handles left, whatever other calls there are |
| `CloseProtocol.OrderlyCloseExactly` | sessions/memory.go:145-160 | with n handles out such a run has at most 3 n + 1 of these steps; where Close cannot move, it has returned if and only if all handles are back |
| `CloseProtocol.CloseReturns` | sessions/memory.go:145-160 | after any such run that brings all handles back, Close returns within its next turn |
| `TimeKeys.PutVarint` | sessions/boltdb.go:266-267 | the loop fills the zeroed buffer with the padded varint of the time |
| `TimeKeys.ReadVarint` | sessions/boltdb.go:320 | the loop decodes a buffer, overflow cases included |
| `TimeKeys.InvertBytesOrder` | sessions/boltdb.go:474-482 | the buffer is reversed in place |
| `TimeKeys.InvertBytes` | sessions/boltdb.go:484-495 | a fresh reversed copy, the original untouched |
| `TimeKeys.EncodeTime` | sessions/boltdb.go:266-268 | the stored bytes are the key of the time |
| `TimeKeys.DecodeTime` | sessions/boltdb.go:454 | the time read back from stored bytes |
| `TimeKeys.KeyRoundTrip` | sessions/boltdb.go:320 | every int64 comes back from its key |
| `TimeKeys.KeyBytes` | sessions/boltdb.go:265-268 | each byte of a key: the digits to the base 128 of the zigzag number, the lowest last, with the top bit where there are higher ones |
| `TimeKeys.OverflowIsZero` | sessions/boltdb.go:320 | bytes that do not end in time, or exceed 64 bits, are read as zero |
| `TimeKeys.KeyFollowsZigZag` | sessions/boltdb.go:265-268 | for all int64, byte order of keys is the order of the zigzag numbers, and different times have different keys |
| `TimeKeys.KeyOrderIsChronological` | sessions/boltdb.go:326-329 | for non-negative times, byte order of keys is the order of time |
| `TimeKeys.KeyOrderExactly` | sessions/boltdb.go:326-329 | for all int64 x and y the keys keep the order of time if and only if x is y or their sum is not negative |
| `TimeKeys.KeyOrderBeforeEpoch` | sessions/boltdb.go:326-329 | two times before the epoch whose keys are the other way round |
| `BoltSessions.SessionsBoltDB.New` | sessions/boltdb.go:257-294 | the three buckets and the data bucket after New, and its errors |
| `BoltSessions.SessionsBoltDB.Restore` | sessions/boltdb.go:299-349 | a new key in both time buckets and the session in use; unknown and expired sessions change nothing |
| `BoltSessions.SessionsBoltDB.Delete` | sessions/boltdb.go:352-383 | in-use before unknown; the session leaves all buckets; panics without a data bucket |
| `BoltSessions.SessionsBoltDB.Return` | sessions/boltdb.go:386-409 | the session is no longer in use; an error if it was not |
| `BoltSessions.SessionsBoltDB.IsInUse` | sessions/boltdb.go:421-442 | whether a known session is in use |
| `BoltSessions.SessionsBoltDB.Ttl` | sessions/boltdb.go:445-467 | the decoded expiry, and with an error if it has passed |
| `BoltSessions.SessionsBoltDB.Open` | sessions/boltdb.go:212-247 | opening forgets who was in use and keeps the rest |
| `BoltSessions.StepKeepsSound` | sessions/boltdb.go:257-467 | any call, any clock: every time entry is backed by its uuid entry even when times collide, sessions in use are known, session data belongs to known sessions; an error changes nothing |
| `BoltSessions.RunKeepsSound` | sessions/boltdb.go:257-467 | the same over every run |
| `BoltSessions.ReopenKeepsSound` | sessions/boltdb.go:218-233 | opening a sound database leaves it sound |
| `BoltSessions.StampKeepsInverse` | sessions/boltdb.go:265-277 | New and Restore keep the two time buckets inverse if and only if the expiry is not that of another session |
| `BoltSessions.OthersKeepInverse` | sessions/boltdb.go:352-409 | every other call keeps them inverse |
| `BoltSessions.RunInverseExactly` | sessions/boltdb.go:257-418 | on a run they are inverse throughout if and only if each session opened on it got an expiry not in use |
| `BoltSessions.RunFromEmptyIsInverse` | sessions/boltdb.go:257-418 | with distinct timestamps they are inverse throughout every run from an empty database |
| `BoltSessions.KeysListByExpiry` | sessions/boltdb.go:326-336 | from the epoch on, the stored keys sort by expiry |
| `BoltSessions.UnixNanoWraps` | sessions/boltdb.go:266 | the stored number is the int64 that differs from the time by a multiple of 2 to the 64 |
| `BoltSessions.OpensExactly` | sessions/boltdb.go:257-349 | which calls open a session, with uuids of 1 to 32768 bytes, and with what errors the others fail |
| `BoltSessions.OpenedSession` | sessions/boltdb.go:257-467 | what every call answers about a session just opened: in use, a duplicate, and with its expiry and an error once that has passed |
| `BoltSessions.ReturnedSession` | sessions/boltdb.go:386-467 | and after it was returned: free to be deleted, not to be returned again, all else as before |
| `BoltSessions.DeletedSession` | sessions/boltdb.go:352-383 | and after it was deleted: unknown to every call but New |
| `BoltSessions.OthersSeeNothing` | sessions/boltdb.go:257-467 | no call is noticed by another session |
| `BoltSessions.ReopenedSession` | sessions/boltdb.go:218-233 | after a restart every session is there with its expiry, and free |
| `BoltSessions.FirstDeletePanics` | sessions/boltdb.go:354-364 | Delete on a database without a data bucket panics |
| `SessionTable.UnknownSession` | sessions/interfaces.go:9-17 | of a session that was not opened every call but New says that it is not found |
| `SessionTable.OpenedSession` | sessions/interfaces.go:9-17 | what every call answers about a session just opened: in use, found, and expired for Ttl once its time is over |
| `SessionTable.OpensOnce` | sessions/memory.go:212-258 | New opens a session once with its expiry, Restore once more with a new one |
| `SessionTable.FreeAfterReturns` | sessions/memory.go:260-344 | a session is free, and can be deleted, after as many returns as it was opened, and not before |
| `SessionTable.DeletedSession` | sessions/memory.go:260-289 | what was deleted was free, and is unknown |
| `SessionTable.OthersSeeNothing` | sessions/memory.go:212-372 | no call changes another session, no question or error any |
| `SessionTable.MemStep` | sessions/memory.go:212-372 | every call with a fresh reading does and answers on the in-memory store what it does on the table: the index is transparent |
| `SessionTable.MemRefinesTable` | sessions/memory.go:212-372 | so does every run, whatever is returned on it |
| `SessionTable.BoltReplies` | sessions/boltdb.go:257-467 | a call on bolt answers what the table answers if and only if it is none of five cases that show before the call |
| `SessionTable.BoltMatchesExactly` | sessions/boltdb.go:257-467 | it answers this and leaves the same table if and only if it is none of these, no second handle, no expiry outside int64, and no cleanup with something to remove |
| `SessionTable.BoltRunsCommon` | sessions/boltdb.go:257-467 | bolt refines the table on the runs common to both stores |
| `SessionTable.StoresAgree` | sessions/interfaces.go:9-17 | on every common run, an empty store in memory and an emptied bolt database give the same replies up to the name of the error for a duplicate |
| `SessionTable.FreshStoresAgreeExactly` | sessions/boltdb.go:354-364 | with a fresh bolt database, if and only if no Delete of the run comes before its first New |
| `CacheEntry.Entry.Set` | sessions/memory.go:42-51 | an in-memory entry refuses a key it has, a bolt one overwrites it |
| `CacheEntry.CacheEntry.Get` | sessions/cache.go:32-49 | cached or read through and then cached |
| `CacheEntry.CacheEntry.Set` | sessions/cache.go:51-60 | the session first, the cache only if that succeeded |
| `CacheEntry.CacheEntry.Del` | sessions/cache.go:62-71 | out of the cache, then out of the session |
| `CacheEntry.CacheIsTransparent` | sessions/cache.go:32-71 | over every run the cached session answers as the bare one, for both kinds of session data |
| `CacheEntry.TransparentOnlyIfCoherent` | sessions/cache.go:32-71 | all runs agree if and only if each cached key holds the value of the session |
| `CacheEntry.RepliesMean` | sessions/cache.go:32-71 | every reply of a cached session by the calls before it: Get finds the value set last and not deleted since, Set fails exactly on such a key of data that refuses it, Del exactly where there is none |
| `CacheEntry.KeepsWhatItSaw` | sessions/cache.go:32-71 | a value found or set is found again without asking the session, until it is deleted |
| `RoundRobin.RoundRobin.AddAddrs` | router/loadbalance.go:76-101 | the address is in its pool once; all else stays |
| `RoundRobin.AddedIsServed` | router/loadbalance.go:76-101 | the path leads to the pool that the address was added to, where it stands once and after those before it; the empty path is the root |
| `RoundRobin.RoundRobin.Next` | router/loadbalance.go:104-128 | the address at the cursor of a selected pool, "" without one or with an empty one; only that cursor moves |
| `RoundRobin.RoundRobin.Remove` | router/loadbalance.go:131-160 | a selected pool loses what its code drops; all else stays, pools stay free of duplicates |
| `RoundRobin.FindPath` | router/loadbalance.go:201-214 | the pool of the exact path, else any whose pattern matches, else none, in any order of the map |
| `RoundRobin.MatchNamedParam` | router/loadbalance.go:229-242 | equal, or the first difference is at a colon of the pattern |
| `RoundRobin.BeforeWildcardMeaning` | router/loadbalance.go:216-227 | what counts of a pattern is what comes before its first wildcard |
| `RoundRobin.WildcardMatchesExactly` | router/loadbalance.go:216-227 | a pattern with a wildcard matches exactly the paths that begin with what comes before it |
| `RoundRobin.PlainMatchesExactly` | router/loadbalance.go:216-227 | one without matches the paths that begin with the pattern itself, and the root only itself |
| `RoundRobin.ParamMatches` | router/loadbalance.go:229-242 | a parameter needs its literal beginning and one more character, and that suffices unless it is a colon |
| `RoundRobin.WildcardServesExactly` | router/loadbalance.go:201-227 | without an exact pool or another match, a wildcard pool serves exactly the paths that begin with its literal part |
| `RoundRobin.ResolvesToExactly` | router/loadbalance.go:201-214 | a path resolves to one pool whatever the order of the map exactly if it is its own pool or the only match |
| `RoundRobin.ServedAround` | router/loadbalance.go:104-128 | n calls return the n addresses in cyclic order from the cursor, and come back to it |
| `RoundRobin.Fair` | router/loadbalance.go:104-128 | of any k calls from any cursor each of n addresses gets k/n, rounded down or up |
| `RoundRobin.RemoveExactly` | router/loadbalance.go:145-159 | Remove takes out just the target if and only if the target is first or absent |
| `RoundRobin.RemoveMeaning` | router/loadbalance.go:145-159 | gone are exactly the target and the address right before it; what is left is a subsequence of the old pool without duplicates |
| `ProxyStack.ProxyStack.CircuitBrake` | router/circuitbrake.go:23-49 | breaker created on demand and dropped on failure, a fatal code turned into 500 |
| `ProxyStack.ProxyStack.Balance` | router/loadbalance.go:163-197 | the state after one attempt, with and without the breaker; with it Remove is never called |
| `ProxyStack.ProxyStack.Retry` | router/retry.go:14-25 | for every request: addresses stay, breakers stay clean, no fatal code, 500 without a pool; on a fixed pool the exact outcome |
| `ProxyStack.ProxyStack.Serve` | responsewriter/responsewriter.go:100-109 | a request on a fixed pool with a healthy backend and a retry for each address ends without a server error |
| `ProxyStack.RetryKeepsPool` | router/circuitbrake.go:36-48 | after any request every kept breaker is closed without failures and the pool has its addresses |
| `ProxyStack.AttemptCode` | router/circuitbrake.go:23-49 | one turn: the code the backend wrote, or 500 for 501 to 599; the cursor moves on; a breaker is there after a success and gone after a failure |
| `ProxyStack.RetriedCode` | router/retry.go:14-25 | which backend each turn calls, that it goes on exactly after a server error, 500 included, and that the code of the answer is the one that the last backend wrote |
| `ProxyStack.StrippedExactly` | router/loadbalance.go:165-168 | the language in front of a path is taken away, and nothing else |
| `ProxyStack.FailoverWithin` | router/retry.go:14-25 | the attempts taken are at most one more than the distance from the cursor to a healthy backend |
| `ProxyStack.Failover` | router/retry.go:14-25 | with a healthy backend among n addresses and n retries: no server error, at most n attempts, from any cursor and history |
| `ProxyStack.FailoverOverRuns` | router/router.go:210-221 | so for every request of every run |
| `ProxyStack.FailoverNeedsThemAll` | router/retry.go:16-22 | with n - 1 retries the request may fail |
| `ProxyStack.EmptyPoolFails` | router/loadbalance.go:171-180 | an empty pool answers 500 after all the retries |
| `ProxyStack.RemoveFindsExactly` | router/loadbalance.go:167-194 | where the path without its language resolves, Remove is sure to look in that pool if and only if the path with it leads there alone |
| `ProxyStack.BareTurnDropsExactly` | router/loadbalance.go:182-195 | without the breaker, a fatal answer then drops the address from the pool it came from and from no other; where that path leads nowhere, nothing is dropped |
| `ProxyStack.RemoveMissesThePrefix` | router/loadbalance.go:167-194 | a pool that Next finds and Remove does not |
| `Bucket.StepKeepsInv` | middlewares/bucket/bucket.go:29-60 | each accepted request has one worker and one receiver, each receiver one worker, no handler starts twice |
| `Bucket.Reachable` | middlewares/bucket/bucket.go:29-45 | this holds in every state any schedule reaches, with `size` workers throughout |
| `Bucket.OneReceiver` | middlewares/bucket/bucket.go:48-60 | an answer can be handed to exactly one of the caller and the drain |
| `Bucket.StartedOnce` | middlewares/bucket/bucket.go:36-42 | no handler is started twice for a request or before it is accepted |
| `Bucket.BusyAccount` | middlewares/bucket/bucket.go:29-60 | the busy workers are the callers that wait plus the answers to drain |
| `Bucket.AdmitsExactly` | middlewares/bucket/bucket.go:48-50 | the next caller gets in if and only if waiting and timed-out requests leave a worker over |
| `Bucket.NoTimeoutInTheQueue` | middlewares/bucket/bucket.go:50-53 | a caller not yet accepted leaves that state by being accepted only |
| `Bucket.TimeoutExactly` | middlewares/bucket/bucket.go:50-57 | the timeout may come exactly while a caller waits; then it has returned, and its worker is left to a drain |
| `Bucket.TimedOutStays` | middlewares/bucket/bucket.go:50-57 | a caller that timed out gets nothing else, whatever happens later |
| `Bucket.AllComeBack` | middlewares/bucket/bucket.go:36-58 | from any reachable state the workers can finish what they hold and all be idle again; callers that wait are served |
| `Bucket.WorkersStopAtRest` | middlewares/bucket/bucket.go:36-58 | however the workers take turns, they make no more steps than there is work, and cannot go on if and only if all of it is done, with all idle and every waiting caller served |
| `DocCache.OutDateIsNewer` | middlewares/cache/docs.go:85-230 | text or image, a document is out of date against its cached copy exactly if it is newer, and the copy has its key |
| `DocCache.SharedKeyExactly` | middlewares/cache/docs.go:128-131 | under a digest without collisions, documents share a key if and only if they share name and digested string |
| `DocCache.KeysTellApart` | middlewares/cache/docs.go:85-236 | texts or images with fields of the same lengths share a key if and only if they share the name and neither is out of date against the other but for time |
| `DocCache.KeysCollide` | middlewares/cache/docs.go:128-131 | for all texts, moving a character from one field to the one before keeps the key of a different document |
| `DocCache.SharedKeyServesTheOther` | middlewares/cache/handler.go:33-77 | what was stored for one document answers for another with its key if and only if the store is not older than that one's last change and the client gets no 304 |
| `DocCache.Storage.Store` | middlewares/cache/cache.go:109-155 | body, then headers in the file next to it, each written from the start without truncation over whatever file is there |
| `DocCache.Storage.ReadTo` | middlewares/cache/cache.go:158-203 | headers that are missing or do not decode, code written before the body is known to be there, eviction in between |
| `DocCache.Storage.GetMTime` | middlewares/cache/cache.go:207-220 | the document with the time of its cached body, if there is one |
| `DocCache.Exec` | middlewares/cache/handler.go:79-119 | answer and disk after running the handler |
| `DocCache.Cache` | middlewares/cache/handler.go:33-77 | answer and disk after a request with evictions in every gap |
| `DocCache.RequestIsTransparent` | middlewares/cache/handler.go:33-119 | on a faithful cache an answer has the body of the page as it is now, unless it is 304 to a client whose copy is as new, or 500 for a page without a body |
| `DocCache.AnswersExactly` | middlewares/cache/handler.go:33-77 | exactly when a client is told 304, and exactly when it is given the file in the cache, with any evictions |
| `DocCache.OnlySuccessIsKept` | middlewares/cache/handler.go:97-98 | after an answer that is no success every file was there before, unchanged |
| `DocCache.SuccessIsKept` | middlewares/cache/handler.go:79-119 | an answer that is a success is stored, and is what the next client gets |
| `DocCache.HitsFromEmptyAreSuccesses` | middlewares/cache/handler.go:33-119 | on every run from an empty cache, with names apart, each answer from it is for a page whose code is 0 or 2xx |
| `DocCache.NextKeepsFaithful` | middlewares/cache/cache.go:109-155 | so for every event; a change always keeps it faithful |
| `DocCache.CacheIsTransparent` | middlewares/cache/handler.go:33-119 | a run keeps the cache faithful throughout if and only if no request of it does either, and then every answer carries the current page |
| `DocCache.ApartRunExactly` | middlewares/cache/cache.go:113-115 | where no document has the name of another one's header file, if and only if no request puts a shorter page over an old copy |
| `DocCache.ApartExactly` | middlewares/cache/cache.go:113-115 | for a set of documents this holds, whatever the pages and the run, if and only if their names are like that |
| `DocCache.NamesClash` | middlewares/cache/cache.go:109-155 | for every two documents whose names are not, a run without shrinking pages whose last answer carries the page exactly if the page begins with the headers of the other |
| `DocCache.EmptyCacheIsFaithful` | middlewares/cache/cache.go:35-41 | a new storage is where such runs start |
| `DocCache.OverlayExactly` | middlewares/cache/cache.go:122-128 | a file holds just what was written if and only if it was not longer before |
| `DocCache.FaithfulExactly` | middlewares/cache/cache.go:109-155 | a request, with any evictions around it, leaves the cache faithful if and only if it puts neither a shorter page over an old copy that eviction spares until the store nor its headers over the page of another document |
| `DocCache.HitAfterShrinking` | middlewares/cache/cache.go:122-128 | after such a store the next hit has the tail of the old page |
| `Base64.RoundTrip` | middlewares/basicauth/basic.go:48 | decoding an encoding gives the bytes back |
| `Base64.EncodeIsInjective` | middlewares/basicauth/handler.go:76 | different bytes have different encodings |
| `Base64.SymbolsExactly` | middlewares/basicauth/basic.go:48 | the standard alphabet in its order |
| `Base64.EncodesThree` | middlewares/basicauth/handler.go:76 | three bytes are written as the four digits to the base 64 of their 24 bits |
| `Base64.EncodesRest` | middlewares/basicauth/handler.go:76 | one or two bytes at the end are filled up with zero bits and padding |
| `Base64.DecodesExactly` | middlewares/basicauth/basic.go:48 | what decodes is exactly groups of four symbols of the alphabet, but for at most two of padding at the end |
| `Base64.DecodesRest` | middlewares/basicauth/basic.go:48 | a padded group gives its first bytes whatever bits the padding cuts off |
| `BasicAuth.BasicExactly` | middlewares/basicauth/basic.go:37-57 | the header for a user and a password parses back to them if and only if neither has a colon; else the error for the pair |
| `BasicAuth.BasicSound` | middlewares/basicauth/basic.go:37-57 | whatever is accepted is the scheme and an encoding of two halves without colons |
| `BasicAuth.RefusalsExactly` | middlewares/basicauth/basic.go:37-57 | the error for no value, for one word, for another scheme, for what does not decode, and for no colon |
| `BasicAuth.SpacesExactly` | middlewares/basicauth/basic.go:41 | what separates the words of the header |
| `BasicAuth.Users.SetPass` | middlewares/basicauth/handler.go:63-80 | its errors; afterwards exactly the password validates, and other users are as before |
| `BasicAuth.Users.SetRaw` | middlewares/basicauth/handler.go:82-91 | its errors; the entry is stored as it is |
| `BasicAuth.Users.Validate` | middlewares/basicauth/handler.go:93-109 | whether the stored entry matches the password |
| `BasicAuth.SplitHashAt` | middlewares/basicauth/handler.go:40-52 | an entry splits at its first colon, whatever colons the password has |
| `BasicAuth.EntryMatches` | middlewares/basicauth/handler.go:63-109 | an entry for a password, under any hash, matches that password and no other |
| `BasicAuth.UnknownTypeIsPlain` | middlewares/basicauth/handler.go:102-106 | a raw entry of an unknown type is compared as plain text |
| `BasicAuth.BrokenEntryMatchesNobody` | middlewares/basicauth/handler.go:40-101 | an entry without a colon, or with nothing before or after it, validates no password |
| `BasicAuth.EntryFormat` | middlewares/basicauth/handler.go:63-80 | what is stored for each of the seven types |
| `BasicAuth.StrangersAreRefused` | middlewares/basicauth/handler.go:93-97 | a user who is not in the table is not let in by any header |
| `BasicAuth.StatusExactly` | middlewares/basicauth/handler.go:111-128 | 401 exactly without a header, 403 exactly where one lets nobody in |
| `BasicAuth.LoginExactly` | middlewares/basicauth/handler.go:111-128 | the header for a user and q lets the user in if and only if q is the password and neither has a colon |
| `BasicAuth.ColonLocksOut` | middlewares/basicauth/handler.go:111-128 | some header lets the user in if and only if neither name nor password has a colon |

## Left out

- Servers, clients, TLS, etcd, configuration, logging: library plumbing without state of its own.
- The network call of `router/proxy.go`: a backend is an arbitrary function, and its timeout and goroutine are not modelled.
- Real bolt, gobreaker, httprouter and afero: small models, as said above; bolt never fails for reasons of input and output, and a breaker has no half-open state, which no breaker here reaches.
- Data races: each call of the session stores, the balancer, the cached session and one cleanup pass is atomic, although the cleanup walks the index without the lock, Next moves the cursor under a read lock, and a cached Get releases its lock in the middle.
- `MemSessions.MemSessions.Return`: the `signal` map it looks in is never filled by the code and is not modelled.
- `MemSessions.MemSessions.Cleanup`: what the callback deletes from the map during the walk is deleted in one step after it, which an atomic pass cannot tell apart.
- `CloseProtocol.CloseReturns`: one closer only; a second Close returns at once after the first has set its flag.
- `OrderedIndex.Iter`: the callback is a function of position and entry, so it cannot change the records it walks over, and it goes on where a deletion is refused, as the one in the code does.
- `TimeKeys.PutVarint`: on the zeroed buffer of ten bytes that is its only argument in the code.
- Session data in bolt, its codec and its sub-bucket that goes away with its last key: `BoltSessions` keeps which sub-buckets exist, and `CacheEntry` the data as a map.
- `SessionTable.StoresAgree`: expired sessions, a second handle, a stray return and a cleanup are where the stores differ, and `BoltMatchesExactly` says when.
- Headers and bodies that accumulate over retries on one response writer: claims are about status codes.
- `DocCache.Cache`: header contents other than X-Cache are not modelled; stored headers are bytes that the JSON decoder finds or does not find. Documents change between requests, not during one, a storage write succeeds, and eviction does not fall between the two files of one store.
- `DocCache.HitAfterShrinking`: on the buffered writer of this repository the last code wins and lengths are not compared. `NewStaticRouter` hands the cache the writer of the server: with that of net/http the first code stays, and a stored Content-Length may cut an answer that is too long.
- `filepath` cleaning, `ComposeFileName` and the metadata of a request: a document comes with its name.
- Non-ASCII white space, case mapping and paths.
- Compression, minification, expiry and HSTS headers, redirects, referrer and whois lists, cookies, `list/list.go`: easy branches or library code.
