/**
 The sorted in-memory index (sessions/memstorage.go), over the session records
 that are the only thing the program keeps in it (sessions/memory.go:64-81).

 `Entry` and the functions on sequences of entries say what the index means; the
 methods below are the code that shifts a shared buffer in place.
 */
module OrderedIndex {
  import opened Options

  datatype IndexError = ItemFound | NotFound | Other(code: nat)

  datatype Entry = Entry(uuid: string, at: int)

  /**
   The `lastSeen` field of the records of memory.go, by the uuid that stands for the
   pointer.  The index holds pointers: what it sees moves when a record changes.
   */
  type Records = map<string, int>

  // -------------------------------------------------------------------------
  // The index as a value

  ghost predicate StrictlySorted(ix: seq<Entry>) {
    forall i, j :: 0 <= i < j < |ix| ==> ix[i].at < ix[j].at
  }

  ghost predicate HasKey(ix: seq<Entry>, at: int) {
    exists i :: 0 <= i < |ix| && ix[i].at == at
  }

  function Insert(ix: seq<Entry>, e: Entry): seq<Entry> {
    if ix == [] || e.at < ix[0].at then [e] + ix else [ix[0]] + Insert(ix[1..], e)
  }

  function RemoveKey(ix: seq<Entry>, at: int): seq<Entry> {
    if ix == [] then []
    else if ix[0].at == at then ix[1..]
    else [ix[0]] + RemoveKey(ix[1..], at)
  }

  function Without(ix: seq<Entry>, keys: set<int>): seq<Entry> {
    if ix == [] then []
    else if ix[0].at in keys then Without(ix[1..], keys)
    else [ix[0]] + Without(ix[1..], keys)
  }

  lemma {:induction false} InsertAt(ix: seq<Entry>, e: Entry, i: nat)
    requires i <= |ix|
    requires forall k :: 0 <= k < i ==> ix[k].at < e.at
    requires forall k :: i <= k < |ix| ==> e.at < ix[k].at
    ensures Insert(ix, e) == ix[..i] + [e] + ix[i..]
  {
    if i > 0 {
      InsertAt(ix[1..], e, i - 1);
      assert ix[..i] == [ix[0]] + ix[1..][..i - 1];
      assert ix[i..] == ix[1..][i - 1..];
    }
  }

  lemma Tail(ix: seq<Entry>, i: nat)
    requires 0 < i < |ix|
    ensures ix[..i] == [ix[0]] + ix[1..][..i - 1] && ix[i + 1..] == ix[1..][i..] && ix[1..][i - 1] == ix[i]
    ensures StrictlySorted(ix) ==> StrictlySorted(ix[1..]) && ix[0].at < ix[i].at
  {
  }

  lemma {:induction false} RemoveAt(ix: seq<Entry>, at: int, i: nat)
    requires i < |ix| && StrictlySorted(ix) && ix[i].at == at
    ensures RemoveKey(ix, at) == ix[..i] + ix[i + 1..]
  {
    hide StrictlySorted;
    if i > 0 {
      Tail(ix, i);
      RemoveAt(ix[1..], at, i - 1);
      var a, b := ix[1..][..i - 1], ix[1..][i..];
      assert RemoveKey(ix, at) == [ix[0]] + (a + b);
    }
  }

  /** Insert keeps the order and adds exactly the new entry. */
  lemma {:induction false} InsertMeaning(ix: seq<Entry>, e: Entry)
    requires StrictlySorted(ix) && !HasKey(ix, e.at)
    ensures StrictlySorted(Insert(ix, e))
    ensures forall x :: x in Insert(ix, e) <==> x == e || x in ix
  {
    if ix == [] || e.at < ix[0].at {
      assert Insert(ix, e) == [e] + ix;
    } else {
      assert ix[0].at != e.at;
      assert ix == [ix[0]] + ix[1..];
      assert forall i :: 0 <= i < |ix| - 1 ==> ix[1..][i] == ix[i + 1];
      InsertMeaning(ix[1..], e);
      forall x | x in Insert(ix[1..], e) ensures ix[0].at < x.at {
        assert x == e || x in ix[1..];
      }
    }
  }

  lemma {:induction false} RemoveAbsent(ix: seq<Entry>, at: int)
    requires !HasKey(ix, at)
    ensures RemoveKey(ix, at) == ix
  {
    if ix != [] {
      assert ix[0].at != at;
      assert forall i :: 0 <= i < |ix| - 1 ==> ix[1..][i] == ix[i + 1];
      RemoveAbsent(ix[1..], at);
    }
  }

  /** The survivors are a strictly sorted subsequence: the entries whose key was not deleted. */
  lemma {:induction false} WithoutMeaning(ix: seq<Entry>, keys: set<int>)
    requires StrictlySorted(ix)
    ensures StrictlySorted(Without(ix, keys))
    ensures forall x :: x in Without(ix, keys) <==> x in ix && x.at !in keys
  {
    if ix != [] {
      WithoutMeaning(ix[1..], keys);
      assert ix == [ix[0]] + ix[1..];
      forall x | x in Without(ix[1..], keys) ensures ix[0].at < x.at {
        assert x in ix[1..];
      }
    }
  }

  lemma {:induction false} WithoutNothing(ix: seq<Entry>)
    ensures Without(ix, {}) == ix
  {
    if ix != [] {
      WithoutNothing(ix[1..]);
    }
  }

  /** Deleting one more key from the survivors. */
  lemma {:induction false} WithoutOneMore(ix: seq<Entry>, keys: set<int>, at: int)
    requires StrictlySorted(ix)
    ensures RemoveKey(Without(ix, keys), at) == Without(ix, keys + {at})
  {
    if ix != [] {
      WithoutOneMore(ix[1..], keys, at);
      if ix[0].at == at && at !in keys {
        var rest := Without(ix[1..], keys);
        WithoutMeaning(ix[1..], keys);
        assert Without(ix, keys) == [ix[0]] + rest;
        assert forall i :: 0 <= i < |rest| ==> rest[i] in ix[1..];
        assert forall x :: x in ix[1..] ==> x.at != at;
        assert !HasKey(rest, at);
        RemoveAbsent(rest, at);
      }
    }
  }

  /** RemoveKey keeps the order and takes away exactly the entries under the key. */
  lemma RemoveMeaning(ix: seq<Entry>, at: int)
    requires StrictlySorted(ix)
    ensures StrictlySorted(RemoveKey(ix, at))
    ensures forall x :: x in RemoveKey(ix, at) <==> x in ix && x.at != at
  {
    WithoutNothing(ix);
    WithoutOneMore(ix, {}, at);
    WithoutMeaning(ix, {} + {at});
  }

  // -------------------------------------------------------------------------
  // The shared buffer

  /** The keys of the records that the pointers in s lead to, as the index sees them. */
  function Entries(s: seq<string>, seen: Records): (ix: seq<Entry>)
    requires forall p :: p in s ==> p in seen
    ensures |ix| == |s| && forall i :: 0 <= i < |s| ==> ix[i] == Entry(s[i], seen[s[i]])
  {
    seq(|s|, i requires 0 <= i < |s| => Entry(s[i], seen[s[i]]))
  }

  /** The place that splits the keys into those below x and the others. */
  ghost predicate Splits(ix: seq<Entry>, i: nat, x: int) {
    && i <= |ix|
    && (forall k :: 0 <= k < i ==> ix[k].at < x)
    && (forall k :: i <= k < |ix| ==> ix[k].at >= x)
  }

  lemma Spliced(s: seq<string>, p: string, i: nat, seen: Records)
    requires p in seen && forall q :: q in s ==> q in seen
    requires Splits(Entries(s, seen), i, seen[p]) && !HasKey(Entries(s, seen), seen[p])
    ensures forall q :: q in s[..i] + [p] + s[i..] <==> q == p || q in s
    ensures Entries(s[..i] + [p] + s[i..], seen) == Insert(Entries(s, seen), Entry(p, seen[p]))
  {
    var t := s[..i] + [p] + s[i..];
    assert s == s[..i] + s[i..];
    var ix, e := Entries(s, seen), Entry(p, seen[p]);
    InsertAt(ix, e, i);
    assert forall k :: 0 <= k < |t| ==> Entries(t, seen)[k] == (ix[..i] + [e] + ix[i..])[k];
    assert Entries(t, seen) == ix[..i] + [e] + ix[i..];
  }

  lemma CutOut(s: seq<string>, i: nat, seen: Records)
    requires i < |s| && (forall q :: q in s ==> q in seen) && StrictlySorted(Entries(s, seen))
    ensures forall q :: q in s[..i] + s[i + 1..] ==> q in s
    ensures Entries(s[..i] + s[i + 1..], seen) == RemoveKey(Entries(s, seen), seen[s[i]])
  {
    var ix := Entries(s, seen);
    RemoveAt(ix, seen[s[i]], i);
    assert Entries(s[..i] + s[i + 1..], seen) == ix[..i] + ix[i + 1..];
  }

  lemma Shortened(s: seq<string>, i: nat, t: seq<string>)
    requires i < |s| && |t| == |s| - 1
    requires forall k :: 0 <= k < i ==> t[k] == s[k]
    requires forall k :: i <= k < |t| ==> t[k] == s[k + 1]
    ensures t == s[..i] + s[i + 1..]
  {
  }

  /** The builtin copy(s[dst:], s[src:src+n]), which works as if through a temporary. */
  method Copy(s: array<string>, dst: nat, src: nat, n: nat)
    requires dst + n <= s.Length && src + n <= s.Length
    modifies s
    ensures forall k :: 0 <= k < s.Length ==>
      s[k] == if dst <= k < dst + n then old(s[k - dst + src]) else old(s[k])
  {
    forall k | 0 <= k < n {
      s[dst + k] := s[src + k];
    }
  }

  /**
   `Ordered`, a Go slice header: copies of it share the buffer.  The pointer methods of
   the program, which may replace the header, return the new one.
   */
  datatype Ordered = Ordered(buf: array<string>, len: nat) {
    ghost predicate Valid(seen: Records)
      reads buf
    {
      len <= buf.Length && forall p :: p in buf[..len] ==> p in seen
    }

    ghost function Items(): (s: seq<string>)
      requires len <= buf.Length
      reads buf
    {
      buf[..len]
    }

    ghost function View(seen: Records): seq<Entry>
      requires Valid(seen)
      reads buf
    {
      Entries(Items(), seen)
    }

    ghost predicate Indexed(seen: Records)
      reads buf
    {
      Valid(seen) && StrictlySorted(View(seen))
    }

    /** sort.Search with the comparison of `search`, then the test for equality. */
    method Search(x: int, seen: Records) returns (i: nat, found: bool)
      requires Indexed(seen)
      ensures i <= len && Splits(View(seen), i, x)
      ensures found <==> i < len && View(seen)[i].at == x
      ensures found <==> HasKey(View(seen), x)
    {
      i := 0;
      var j := len;
      while i < j
        invariant i <= j <= len
        invariant forall k :: 0 <= k < i ==> View(seen)[k].at < x
        invariant forall k :: j <= k < len ==> View(seen)[k].at >= x
      {
        var h := (i + j) / 2;
        assert buf[h] == Items()[h];
        if seen[buf[h]] < x {
          i := h + 1;
        } else {
          j := h;
        }
      }
      assert i < len ==> buf[i] == Items()[i];
      found := i < len && seen[buf[i]] == x;
    }

    /** The builtin append of one element: in place if there is room, else into a larger buffer. */
    method Append(p: string) returns (r: Ordered)
      requires len <= buf.Length
      modifies buf
      ensures r.len == len + 1 <= r.buf.Length && (r.buf == buf || fresh(r.buf))
      ensures forall k :: 0 <= k < len ==> r.buf[k] == old(buf[k])
      ensures r.buf[len] == p
    {
      var s := buf;
      if len == s.Length {
        s := new string[2 * len + 1](i reads buf => if 0 <= i < buf.Length then buf[i] else "");
      }
      s[len] := p;
      r := Ordered(s, len + 1);
    }

    /** The last four statements of `Set`. */
    method InsertAtIndex(i: nat, p: string) returns (r: Ordered)
      requires i <= len <= buf.Length
      modifies buf
      ensures r.len == len + 1 <= r.buf.Length && (r.buf == buf || fresh(r.buf))
      ensures forall k :: 0 <= k < r.len ==>
        r.buf[k] == if k < i then old(buf[k]) else if k == i then p else old(buf[k - 1])
    {
      r := Append(p);
      Copy(r.buf, i + 1, i, len - i);
      r.buf[i] := p;
    }

    /** The last four statements of `Del`; "" stands for the nil left in the freed slot. */
    method DeleteAtIndex(i: nat) returns (r: Ordered)
      requires i < len <= buf.Length
      modifies buf
      ensures r.len == len - 1 && r.buf == buf
      ensures forall k :: 0 <= k < r.len ==> r.buf[k] == if k < i then old(buf[k]) else old(buf[k + 1])
    {
      Copy(buf, i, i + 1, len - i - 1);
      buf[len - 1] := "";
      r := Ordered(buf, len - 1);
    }

    method Set(p: string, seen: Records) returns (r: Ordered, err: Option<IndexError>)
      requires Indexed(seen) && p in seen
      modifies buf
      ensures r.Indexed(seen) && (r.buf == buf || fresh(r.buf))
      ensures err == if HasKey(old(View(seen)), seen[p]) then Some(ItemFound) else None
      ensures err.Some? ==> r == this && buf[..] == old(buf[..])
      ensures err.None? ==> r.View(seen) == Insert(old(View(seen)), Entry(p, seen[p]))
    {
      hide HasKey, Splits, StrictlySorted, Insert;
      var i, found := Search(seen[p], seen);
      if found {
        return this, Some(ItemFound);
      }
      ghost var items := Items();
      r := InsertAtIndex(i, p);
      assert r.Items() == items[..i] + [p] + items[i..];
      err := None;
      Spliced(items, p, i, seen);
      InsertMeaning(Entries(items, seen), Entry(p, seen[p]));
    }

    method Del(p: string, seen: Records) returns (r: Ordered, err: Option<IndexError>)
      requires Indexed(seen) && p in seen
      modifies buf
      ensures r.Indexed(seen) && r.buf == buf
      ensures err == if HasKey(old(View(seen)), seen[p]) then None else Some(NotFound)
      ensures err.Some? ==> r == this && buf[..] == old(buf[..])
      ensures err.None? ==> r.View(seen) == RemoveKey(old(View(seen)), seen[p])
    {
      hide HasKey, RemoveKey, StrictlySorted, Splits;
      var i, found := Search(seen[p], seen);
      if !found {
        return this, Some(NotFound);
      }
      ghost var items := Items();
      r := DeleteAtIndex(i);
      err := None;
      Shortened(items, i, r.Items());
      CutOut(items, i, seen);
      RemoveMeaning(Entries(items, seen), seen[p]);
    }
  }

  // -------------------------------------------------------------------------
  // Transactions

  ghost function Keys(d: set<string>, seen: Records): set<int>
    requires d <= seen.Keys
  {
    set p | p in d :: seen[p]
  }

  /** Every key to delete is in the index, and no two pointers lead to the same key. */
  ghost predicate Drawn(d: set<string>, seen: Records, ix: seq<Entry>)
    requires d <= seen.Keys
  {
    && (forall p :: p in d ==> HasKey(ix, seen[p]))
    && (forall p, q :: p in d && q in d && seen[p] == seen[q] ==> p == q)
  }

  lemma DrawnSubset(part: set<string>, all: set<string>, seen: Records, ix: seq<Entry>)
    requires part <= all <= seen.Keys
    ensures Drawn(all, seen, ix) ==> Drawn(part, seen, ix)
  {
  }

  lemma DrawnFrom(d: set<string>, s: seq<string>, seen: Records)
    requires (forall p :: p in s ==> p in seen) && StrictlySorted(Entries(s, seen))
    requires d <= seen.Keys && forall p :: p in d ==> p in s
    ensures Drawn(d, seen, Entries(s, seen))
  {
    var ix := Entries(s, seen);
    forall p, q | p in d && q in d && seen[p] == seen[q] ensures p == q && HasKey(ix, seen[p]) {
      var i :| 0 <= i < |s| && s[i] == p;
      var j :| 0 <= j < |s| && s[j] == q;
      assert ix[i].at == ix[j].at;
    }
  }

  lemma KeyOfMember(rest: seq<Entry>, ix: seq<Entry>, keys: set<int>, at: int)
    requires forall x :: x in rest <==> x in ix && x.at !in keys
    ensures HasKey(rest, at) <==> HasKey(ix, at) && at !in keys
  {
    if HasKey(rest, at) {
      var i :| 0 <= i < |rest| && rest[i].at == at;
      assert rest[i] in ix;
    }
    if HasKey(ix, at) && at !in keys {
      var i :| 0 <= i < |ix| && ix[i].at == at;
      assert ix[i] in rest;
    }
  }

  /** What one turn of the loop of `Commit` relies on, whichever pointer it takes. */
  lemma OneMoreKey(ix: seq<Entry>, done: set<string>, p: string, seen: Records)
    requires done + {p} <= seen.Keys
    requires StrictlySorted(ix) && Drawn(done, seen, ix) && p !in done
    ensures HasKey(Without(ix, Keys(done, seen)), seen[p]) <==> Drawn(done + {p}, seen, ix)
    ensures RemoveKey(Without(ix, Keys(done, seen)), seen[p]) == Without(ix, Keys(done + {p}, seen))
  {
    var keys := Keys(done, seen);
    DrawnPlusOne(ix, done, p, seen);
    assert Keys(done + {p}, seen) == keys + {seen[p]};
    hide HasKey, Drawn, Without;
    WithoutMeaning(ix, keys);
    KeyOfMember(Without(ix, keys), ix, keys, seen[p]);
    WithoutOneMore(ix, keys, seen[p]);
  }

  lemma DrawnPlusOne(ix: seq<Entry>, done: set<string>, p: string, seen: Records)
    requires done + {p} <= seen.Keys && Drawn(done, seen, ix) && p !in done
    ensures Drawn(done + {p}, seen, ix) <==> HasKey(ix, seen[p]) && seen[p] !in Keys(done, seen)
  {
  }

  class Transaction {
    var toDelete: set<string>

    constructor ()
      ensures toDelete == {}
    {
      toDelete := {};
    }

    method Del(p: string) returns (err: Option<IndexError>)
      modifies this
      ensures err == if p in old(toDelete) then Some(NotFound) else None
      ensures toDelete == old(toDelete) + {p}
    {
      if p in toDelete {
        return Some(NotFound);
      }
      toDelete := toDelete + {p};
      err := None;
    }

    /** The calls of `Del` in one call of the callback, which goes on when one of them fails. */
    method DelAll(ps: set<string>)
      modifies this
      ensures toDelete == old(toDelete) + ps
    {
      var rest := ps;
      while rest != {}
        invariant rest <= ps && toDelete == old(toDelete) + (ps - rest)
        decreases rest
      {
        var p :| p in rest;
        var _ := Del(p);
        rest := rest - {p};
      }
    }

    /**
     Deletes in whatever order the map iteration yields the pointers.  It fails exactly
     when some key is missing or repeated, and then the shared buffer may be left
     partly shifted.
     */
    method Commit(o: Ordered, seen: Records) returns (r: Ordered, err: Option<IndexError>)
      requires o.Indexed(seen) && toDelete <= seen.Keys
      modifies this, o.buf
      ensures err.None? <==> Drawn(old(toDelete), seen, old(o.View(seen)))
      ensures err.None? ==> toDelete == {} && r.Indexed(seen) && r.buf == o.buf
      ensures err.None? ==> r.View(seen) == Without(old(o.View(seen)), Keys(old(toDelete), seen))
      ensures err.Some? ==> toDelete != {}
    {
      ghost var ix, all := o.View(seen), toDelete;
      ghost var done: set<string> := {};
      r := o;
      assert Keys(done, seen) == {};
      WithoutNothing(ix);
      while toDelete != {}
        invariant toDelete == all - done && done <= all
        invariant r.buf == o.buf && r.Indexed(seen)
        invariant r.View(seen) == Without(ix, Keys(done, seen))
        invariant Drawn(done, seen, ix)
        decreases toDelete
      {
        var k :| k in toDelete;
        OneMoreKey(ix, done, k, seen);
        r, err := r.Del(k, seen);
        if err.Some? {
          DrawnSubset(done + {k}, all, seen, ix);
          return o, err;
        }
        toDelete := toDelete - {k};
        done := done + {k};
      }
      err := None;
      assert done == all;
    }
  }

  // -------------------------------------------------------------------------
  // Iteration

  datatype Next = Continue | Stop | Fail(err: IndexError)

  /** What one call of the callback does: the records it hands to the transaction, and what it returns. */
  datatype Verdict = Verdict(drops: set<string>, next: Next)

  datatype Outcome = Finished(drops: set<string>) | Aborted(err: IndexError)

  type Callback = (nat, Entry) -> Verdict

  /** A callback can hand over no other pointers than those there are. */
  ghost predicate Knows(f: Callback, seen: Records) {
    forall i, e :: f(i, e).drops <= seen.Keys
  }

  /** What a walk from position i hands to the transaction. */
  function Walk(ix: seq<Entry>, f: Callback, i: nat): Outcome
    requires i <= |ix|
    decreases |ix| - i
  {
    if i == |ix| then Finished({})
    else
      var v := f(i, ix[i]);
      match v.next
      case Fail(err) => Aborted(err)
      case Stop => Finished(v.drops)
      case Continue => Join(v.drops, Walk(ix, f, i + 1))
  }

  function Join(drops: set<string>, rest: Outcome): Outcome {
    match rest
    case Finished(more) => Finished(drops + more)
    case Aborted(err) => Aborted(err)
  }

  /** Positions below n are visited, all but the last of them with the answer to go on. */
  ghost predicate VisitsUpTo(ix: seq<Entry>, f: Callback, n: nat)
    requires n <= |ix|
  {
    && (forall k :: 0 <= k < n - 1 ==> f(k, ix[k]).next.Continue?)
    && (n < |ix| ==> n > 0 && f(n - 1, ix[n - 1]).next.Stop?)
    && (n > 0 ==> !f(n - 1, ix[n - 1]).next.Fail?)
  }

  /** The walk visits a prefix in ascending order and drops what the callback dropped there. */
  lemma {:induction false} WalkMeaning(ix: seq<Entry>, f: Callback, i: nat) returns (n: nat)
    requires i <= |ix| && Walk(ix, f, i).Finished?
    requires forall k :: 0 <= k < i ==> f(k, ix[k]).next.Continue?
    ensures i <= n <= |ix| && VisitsUpTo(ix, f, n)
    ensures Walk(ix, f, i).drops == set k, p | i <= k < n && p in f(k, ix[k]).drops :: p
    decreases |ix| - i
  {
    if i == |ix| {
      n := i;
    } else if f(i, ix[i]).next.Stop? {
      n := i + 1;
    } else {
      n := WalkMeaning(ix, f, i + 1);
    }
  }

  /** The walk is broken off by the first error that is no stop, and has no other error. */
  lemma {:induction false} AbortMeaning(ix: seq<Entry>, f: Callback, i: nat) returns (n: nat)
    requires i <= |ix| && Walk(ix, f, i).Aborted?
    ensures i <= n < |ix| && f(n, ix[n]).next == Fail(Walk(ix, f, i).err)
    ensures forall k :: i <= k < n ==> f(k, ix[k]).next == Continue
    decreases |ix| - i
  {
    if f(i, ix[i]).next.Continue? {
      n := AbortMeaning(ix, f, i + 1);
    } else {
      n := i;
    }
  }

  /**
   `Iter`: a callback error leaves the list untouched.  Otherwise, the stop error
   included, it succeeds exactly when what the callback handed over has different keys of
   the list, and then these are gone.  If not, the header stays and Commit may leave the
   buffer partly shifted.
   */
  method Iter(o: Ordered, f: Callback, seen: Records) returns (r: Ordered, err: Option<IndexError>)
    requires o.Indexed(seen) && Knows(f, seen)
    modifies o.buf
    ensures r.buf == o.buf && (err.Some? ==> r == o)
    ensures match Walk(old(o.View(seen)), f, 0)
            case Aborted(e) => err == Some(e) && o.buf[..] == old(o.buf[..])
            case Finished(drops) =>
              drops <= seen.Keys && (err.None? <==> Drawn(drops, seen, old(o.View(seen))))
    ensures err.None? ==>
      r.Indexed(seen) && r.View(seen) == Without(old(o.View(seen)), Keys(Walk(old(o.View(seen)), f, 0).drops, seen))
  {
    ghost var ix := o.View(seen);
    var tx := new Transaction();
    var i := 0;
    while i < o.len
      invariant i <= o.len
      invariant fresh(tx) && tx.toDelete <= seen.Keys
      invariant Walk(ix, f, 0) == Join(tx.toDelete, Walk(ix, f, i))
      modifies tx
    {
      var data := o.buf[i];
      assert data == o.Items()[i];
      var v := f(i, Entry(data, seen[data]));
      JoinStep(ix, f, i, tx.toDelete);
      assert v.drops <= seen.Keys;
      tx.DelAll(v.drops);
      if v.next.Stop? {
        break;
      } else if v.next.Fail? {
        return o, Some(v.next.err);
      }
      i := i + 1;
    }
    assert Walk(ix, f, 0) == Finished(tx.toDelete);
    r, err := tx.Commit(o, seen);
    if err.Some? {
      r := o;
    }
  }

  lemma JoinStep(ix: seq<Entry>, f: Callback, i: nat, drops: set<string>)
    requires i < |ix|
    ensures var v := f(i, ix[i]);
            Join(drops, Walk(ix, f, i)) ==
              match v.next
              case Fail(err) => Aborted(err)
              case Stop => Finished(drops + v.drops)
              case Continue => Join(drops + v.drops, Walk(ix, f, i + 1))
  {
  }
}
