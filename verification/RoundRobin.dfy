/**
 The round-robin balancer (router/loadbalance.go): pools of addresses by method and
 path, each with a cursor, and the choice of the pool for a request path.

 Strings stand for ASCII paths, one character a byte.
 */
module RoundRobin {
  import opened Options

  /** `ips`: the addresses and the cursor, which may stand past the end. */
  datatype Pool = Pool(ips: seq<string>, actual: nat) {
    /** Where the next call will really look. */
    function Cursor(): nat {
      if actual >= |ips| then 0 else actual
    }
  }

  type Pools = map<string, Pool>

  ghost predicate Distinct(s: seq<string>) {
    forall i, j :: 0 <= i < j < |s| ==> s[i] != s[j]
  }

  function Normal(path: string): string {
    if path == "" then "/" else path
  }

  // -------------------------------------------------------------------------
  // The cursor

  function Advance(p: Pool): (Pool, string) {
    if p.ips == [] then (p, "") else (p.(actual := p.Cursor() + 1), p.ips[p.Cursor()])
  }

  /** What k calls in a row return, from a pool that nothing else touches. */
  function Served(p: Pool, k: nat): seq<string>
    decreases k
  {
    if k == 0 then [] else [Advance(p).1] + Served(Advance(p).0, k - 1)
  }

  function AfterServing(p: Pool, k: nat): Pool
    decreases k
  {
    if k == 0 then p else AfterServing(Advance(p).0, k - 1)
  }

  lemma {:induction false} ServedSplit(p: Pool, a: nat, b: nat)
    ensures Served(p, a + b) == Served(p, a) + Served(AfterServing(p, a), b)
    ensures AfterServing(p, a).ips == p.ips
    decreases a
  {
    if a > 0 {
      ServedSplit(Advance(p).0, a - 1, b);
    }
  }

  /** Calls that do not reach the end of the list return the addresses from the cursor on. */
  lemma {:induction false} ServedStretch(p: Pool, k: nat)
    requires p.ips != [] && p.Cursor() + k <= |p.ips|
    ensures Served(p, k) == p.ips[p.Cursor()..p.Cursor() + k]
    ensures k > 0 ==> AfterServing(p, k) == p.(actual := p.Cursor() + k)
    decreases k
  {
    if k > 0 {
      var q := Advance(p).0;
      if k > 1 {
        ServedStretch(q, k - 1);
      }
      assert p.ips[p.Cursor()..p.Cursor() + k] == [p.ips[p.Cursor()]] + p.ips[p.Cursor() + 1..p.Cursor() + k];
    }
  }

  /** From the cursor, so many calls reach the end of the list. */
  lemma FirstStretch(p: Pool, m: nat)
    requires p.ips != [] && m == |p.ips| - p.Cursor()
    ensures Served(p, m) == p.ips[p.Cursor()..]
    ensures AfterServing(p, m).ips == p.ips && AfterServing(p, m).Cursor() == 0
  {
    ServedStretch(p, m);
  }

  /** One call for each address goes once around, in order, and comes back to the same place. */
  lemma ServedAround(p: Pool)
    requires p.ips != []
    ensures Served(p, |p.ips|) == p.ips[p.Cursor()..] + p.ips[..p.Cursor()]
    ensures AfterServing(p, |p.ips|).ips == p.ips && AfterServing(p, |p.ips|).Cursor() == p.Cursor()
  {
    hide Served, AfterServing;
    var c, m := p.Cursor(), |p.ips| - p.Cursor();
    FirstStretch(p, m);
    var q := AfterServing(p, m);
    SecondStretch(q, c);
    assert q.ips[..c] == p.ips[..c];
    ServedSplit(p, m, c);
    AfterSplit(p, m, c);
    assert m + c == |p.ips|;
  }

  lemma SecondStretch(q: Pool, c: nat)
    requires c < |q.ips| && q.Cursor() == 0
    ensures Served(q, c) == q.ips[..c]
    ensures AfterServing(q, c).ips == q.ips && AfterServing(q, c).Cursor() == c
  {
    ServedStretch(q, c);
  }

  lemma {:induction false} AfterSplit(p: Pool, a: nat, b: nat)
    ensures AfterServing(p, a + b) == AfterServing(AfterServing(p, a), b)
    decreases a
  {
    if a > 0 {
      AfterSplit(Advance(p).0, a - 1, b);
    }
  }

  /** How often a occurs in s. */
  function Count(s: seq<string>, a: string): nat {
    if s == [] then 0 else (if s[0] == a then 1 else 0) + Count(s[1..], a)
  }

  lemma {:induction false} CountAppend(s: seq<string>, t: seq<string>, a: string)
    ensures Count(s + t, a) == Count(s, a) + Count(t, a)
  {
    if s == [] {
      assert s + t == t;
    } else {
      assert (s + t)[1..] == s[1..] + t;
      CountAppend(s[1..], t, a);
    }
  }

  lemma {:induction false} OnceEach(s: seq<string>, a: string)
    requires Distinct(s)
    ensures Count(s, a) == if a in s then 1 else 0
  {
    if s != [] {
      OnceEach(s[1..], a);
    }
  }

  lemma TurnCount(p: Pool, a: string)
    requires Distinct(p.ips) && a in p.ips
    ensures Count(Served(p, |p.ips|), a) == 1
  {
    var c := p.Cursor();
    ServedAround(p);
    OnceEach(p.ips, a);
    hide Served, AfterServing, Distinct;
    Rotated(p.ips, c, a);
  }

  lemma Rotated(s: seq<string>, c: nat, a: string)
    requires c <= |s|
    ensures Count(s[c..] + s[..c], a) == Count(s, a)
  {
    CountAppend(s[c..], s[..c], a);
    CountAppend(s[..c], s[c..], a);
    assert s == s[..c] + s[c..];
  }

  /** count out of k calls is the share of one of n addresses, rounded down or up. */
  predicate Share(count: nat, k: nat, n: nat)
    requires n > 0
  {
    k / n <= count <= (k + n - 1) / n
  }

  lemma LessThanATurn(p: Pool, k: nat, a: string)
    requires Distinct(p.ips) && a in p.ips && k < |p.ips|
    ensures Count(Served(p, k), a) <= 1
  {
    TurnCount(p, a);
    ServedSplit(p, k, |p.ips| - k);
    CountAppend(Served(p, k), Served(AfterServing(p, k), |p.ips| - k), a);
    hide Count, Served, AfterServing, Distinct;
  }

  lemma OneTurnMore(p: Pool, k: nat, a: string)
    requires Distinct(p.ips) && a in p.ips
    ensures Count(Served(p, |p.ips| + k), a) == 1 + Count(Served(AfterServing(p, |p.ips|), k), a)
    ensures AfterServing(p, |p.ips|).ips == p.ips
  {
    TurnCount(p, a);
    ServedSplit(p, |p.ips|, k);
    CountAppend(Served(p, |p.ips|), Served(AfterServing(p, |p.ips|), k), a);
    hide Count, Served, AfterServing, Distinct;
  }

  /** Fairness: of any k calls in a row, from any cursor, each address gets its share. */
  lemma {:induction false} Fair(p: Pool, k: nat, a: string)
    requires Distinct(p.ips) && a in p.ips
    ensures Share(Count(Served(p, k), a), k, |p.ips|)
    decreases k
  {
    var n := |p.ips|;
    if k == 0 {
      assert Served(p, k) == [];
    } else if k < n {
      LessThanATurn(p, k, a);
      ShareOfLessThanATurn(Count(Served(p, k), a), k, n);
    } else {
      hide Share, Served, AfterServing, Count, Distinct;
      OneTurnMore(p, k - n, a);
      Fair(AfterServing(p, n), k - n, a);
      ShareOfOneTurnMore(Count(Served(AfterServing(p, n), k - n), a), k - n, n);
    }
  }

  lemma ShareOfLessThanATurn(count: nat, k: nat, n: nat)
    requires 0 < k < n && count <= 1
    ensures Share(count, k, n)
  {
    PlusDivisor(k - 1, n);
  }

  lemma ShareOfOneTurnMore(count: nat, k: nat, n: nat)
    requires n > 0 && Share(count, k, n)
    ensures Share(count + 1, k + n, n)
  {
    PlusDivisor(k, n);
    PlusDivisor(k + n - 1, n);
  }

  lemma PlusDivisor(m: nat, n: nat)
    requires n > 0
    ensures (m + n) / n == m / n + 1
  {
    var d := (m + n) / n - (m / n + 1);
    assert n * d == m % n - (m + n) % n;
    assert d >= 1 ==> n * d >= n;
    assert d <= -1 ==> n * d <= n * -1;
  }

  // -------------------------------------------------------------------------
  // Removal

  /** The position of a in s, or |s|. */
  function IndexOf(s: seq<string>, a: string): (i: nat)
    ensures i <= |s| && (i < |s| <==> a in s)
    ensures i < |s| ==> s[i] == a
    ensures forall j :: 0 <= j < i ==> s[j] != a
  {
    if s == [] || s[0] == a then 0 else 1 + IndexOf(s[1..], a)
  }

  /** `p.ips[:i-1]` where `p.ips[:i]` was meant: the element before the target goes as well. */
  function Removed(s: seq<string>, target: string): seq<string> {
    var i := IndexOf(s, target);
    if i == |s| then s
    else if i == 0 then s[1..]
    else s[..i - 1] + s[i + 1..]
  }

  /** The sequence without the target, which is what removing it is for. */
  function Without(s: seq<string>, target: string): seq<string> {
    if s == [] then []
    else if s[0] == target then Without(s[1..], target)
    else [s[0]] + Without(s[1..], target)
  }

  lemma {:induction false} WithoutAt(s: seq<string>, target: string)
    requires Distinct(s)
    ensures var i := IndexOf(s, target);
            Without(s, target) == if i == |s| then s else s[..i] + s[i + 1..]
  {
    if s != [] {
      WithoutAt(s[1..], target);
      var i := IndexOf(s, target);
      if s[0] == target {
        assert target !in s[1..];
      } else if i < |s| {
        assert s[..i] == [s[0]] + s[1..][..i - 1];
      }
    }
  }

  /** Remove does what it is for exactly when the target is first in its pool or not in it. */
  lemma RemoveExactly(s: seq<string>, target: string)
    requires Distinct(s)
    ensures Removed(s, target) == Without(s, target) <==> target !in s || s[0] == target
  {
    WithoutAt(s, target);
    var i := IndexOf(s, target);
    if 0 < i < |s| {
      assert |Removed(s, target)| == |s| - 2;
    }
  }

  /** a stands right before the target in s. */
  ghost predicate Before(s: seq<string>, a: string, target: string) {
    exists i :: 0 < i < |s| && s[i] == target && s[i - 1] == a
  }

  /** Whatever it removes, nothing repeats afterwards. */
  lemma RemoveKeepsDistinct(s: seq<string>, target: string)
    requires Distinct(s)
    ensures Distinct(Removed(s, target))
  {
  }

  lemma IndexOfAt(s: seq<string>, k: nat)
    requires Distinct(s) && k < |s|
    ensures IndexOf(s, s[k]) == k
  {
    assert s[k] in s;
  }

  /** The addresses of r are all in s, and stand in the same order there. */
  ghost predicate Subsequence(r: seq<string>, s: seq<string>) {
    && (forall i :: 0 <= i < |r| ==> r[i] in s)
    && (forall i, j :: 0 <= i < j < |r| ==> IndexOf(s, r[i]) < IndexOf(s, r[j]))
  }

  lemma RemoveKeepsOrder(s: seq<string>, target: string)
    requires Distinct(s)
    ensures Subsequence(Removed(s, target), s)
  {
    var r, at := Removed(s, target), IndexOf(s, target);
    forall i, j | 0 <= i < j < |r| ensures IndexOf(s, r[i]) < IndexOf(s, r[j]) {
      IndexOfAt(s, OldPlace(s, at, i));
      IndexOfAt(s, OldPlace(s, at, j));
    }
  }

  /** Where an address stood before the target at this place was removed. */
  function OldPlace(s: seq<string>, at: nat, i: nat): nat {
    if at == |s| || i + 1 < at then i else if at == 0 then i + 1 else i + 2
  }

  lemma RemoveMembers(s: seq<string>, target: string)
    requires Distinct(s)
    ensures forall a :: a in Removed(s, target) <==> a in s && a != target && !Before(s, a, target)
  {
    var i := IndexOf(s, target);
    if i < |s| {
      assert forall j :: 0 <= j < |s| && s[j] == target ==> j == i;
      if i > 0 {
        assert s == s[..i - 1] + [s[i - 1], s[i]] + s[i + 1..];
        assert forall a :: Before(s, a, target) <==> a == s[i - 1];
      } else {
        assert s == [s[0]] + s[1..];
      }
    }
  }

  /** What is gone is the target and the address before it; the rest keeps its order, and nothing is new. */
  lemma RemoveMeaning(s: seq<string>, target: string)
    requires Distinct(s)
    ensures forall a :: a in Removed(s, target) <==> a in s && a != target && !Before(s, a, target)
    ensures Subsequence(Removed(s, target), s) && Distinct(Removed(s, target))
  {
    RemoveMembers(s, target);
    RemoveKeepsOrder(s, target);
    RemoveKeepsDistinct(s, target);
    hide Removed, Before, Subsequence, Distinct;
  }

  /** The loop of `Remove`. */
  method Drop(s: seq<string>, target: string) returns (left: seq<string>)
    ensures left == Removed(s, target)
  {
    for i := 0 to |s|
      invariant forall j :: 0 <= j < i ==> s[j] != target
    {
      if s[i] == target {
        if i > 0 && i + 1 < |s| {
          return s[..i - 1] + s[i + 1..];
        } else if i == 0 && i + 1 < |s| {
          return s[i + 1..];
        } else if i > 0 && i + 1 == |s| {
          return s[..i - 1];
        } else {
          return s[..0];
        }
      }
    }
    return s;
  }

  // -------------------------------------------------------------------------
  // Path matching

  // strings.Split(k, "/*")[0]: what comes before the first wildcard.
  function BeforeWildcard(k: string): (s: string)
    ensures s <= k
  {
    if k == "" || "/*" <= k then "" else [k[0]] + BeforeWildcard(k[1..])
  }

  predicate MatchWildcard(path: string, k: string) {
    k != "/" && BeforeWildcard(k) <= path
  }

  /** The first place where the two differ holds the colon of a parameter in the pattern. */
  ghost predicate NamedParam(path: string, k: string) {
    path != "" && k != "" &&
    (path == k ||
     exists i :: 0 <= i < |path| && i < |k| && path[..i] == k[..i] && path[i] != k[i] && k[i] == ':')
  }

  method MatchNamedParam(path: string, k: string) returns (b: bool)
    ensures b <==> NamedParam(path, k)
  {
    if path == "" || k == "" {
      return false;
    }
    for i := 0 to |path|
      invariant forall j :: 0 <= j < i && j < |k| ==> path[j] == k[j]
    {
      if i < |k| && path[i] != k[i] {
        assert path[..i] == k[..i];
        if k[i] == ':' {
          return true;
        }
        assert forall j :: i < j < |path| && j < |k| ==> path[..j][i] != k[..j][i];
        return false;
      }
    }
    return path == k;
  }

  ghost predicate Matches(path: string, k: string) {
    MatchWildcard(path, k) || NamedParam(path, k)
  }

  /**
   What findPath may answer: the pool of exactly this path, or else any pool whose
   pattern matches, since the order in which Go walks a map is not fixed.
   */
  ghost predicate Selected(keys: set<string>, path: string, k: Option<string>) {
    if path in keys then k == Some(path)
    else
      match k
      case Some(found) => found in keys && Matches(path, found)
      case None => forall any :: any in keys ==> !Matches(path, any)
  }

  /** The path resolves to one fixed pool. */
  ghost predicate ResolvesTo(keys: set<string>, path: string, k: string) {
    forall any :: Selected(keys, path, any) <==> any == Some(k)
  }

  lemma ResolvesToExactly(keys: set<string>, path: string, k: string)
    ensures ResolvesTo(keys, path, k) <==>
      k in keys && (path == k || (path !in keys && Matches(path, k) &&
                                  forall any :: any in keys && any != k ==> !Matches(path, any)))
  {
    if ResolvesTo(keys, path, k) {
      assert Selected(keys, path, Some(k));
      forall any | any in keys && any != k && path !in keys ensures !Matches(path, any) {
        assert !Selected(keys, path, Some(any));
      }
    } else if k in keys {
      assert path == k ==> forall any :: Selected(keys, path, any) <==> any == Some(k);
    }
  }

  /** The first wildcard ends the part before it; without one, that is the whole pattern. */
  lemma {:induction false} BeforeWildcardMeaning(k: string)
    ensures var a := BeforeWildcard(k);
            && a <= k && (|a| < |k| ==> "/*" <= k[|a|..])
            && forall i :: 0 <= i < |a| ==> !("/*" <= k[i..])
  {
    if k != "" && !("/*" <= k) {
      BeforeWildcardMeaning(k[1..]);
      var a := BeforeWildcard(k[1..]);
      assert k[1..][|a|..] == k[|a| + 1..];
      forall i | 0 <= i <= |a| ensures !("/*" <= k[i..]) {
        if i > 0 {
          assert k[1..][i - 1..] == k[i..];
        } else {
          assert k[0..] == k;
        }
      }
    }
  }

  /** So a prefix and a wildcard come apart again, wherever the wildcard is the first. */
  lemma BeforeWildcardOf(a: string, rest: string)
    requires forall i :: 0 <= i < |a| ==> !("/*" <= (a + "/*" + rest)[i..])
    ensures BeforeWildcard(a + "/*" + rest) == a
  {
    var k := a + "/*" + rest;
    BeforeWildcardMeaning(k);
    var s := BeforeWildcard(k);
    assert k[|a|..] == "/*" + rest;
    assert s == k[..|s|] && a == k[..|a|];
  }

  predicate NoColon(k: string) {
    forall i :: 0 <= i < |k| ==> k[i] != ':'
  }

  lemma NoColonNoParam(path: string, k: string)
    requires NoColon(k)
    ensures NamedParam(path, k) <==> path == k && k != ""
  {
  }

  /**
   Which paths a pattern without parameters is for: with a wildcard, those that begin with
   what comes before it; without, those that begin with the pattern itself; "/" is for itself.
   */
  lemma WildcardMatchesExactly(path: string, a: string, rest: string)
    requires NoColon(a + "/*" + rest)
    requires forall i :: 0 <= i < |a| ==> !("/*" <= (a + "/*" + rest)[i..])
    ensures Matches(path, a + "/*" + rest) <==> a <= path
  {
    BeforeWildcardOf(a, rest);
    NoColonNoParam(path, a + "/*" + rest);
    assert a <= a + "/*" + rest;
  }

  lemma PlainMatchesExactly(path: string, k: string)
    requires NoColon(k) && k != "" && forall i :: 0 <= i < |k| ==> !("/*" <= k[i..])
    ensures Matches(path, k) <==> if k == "/" then path == "/" else k <= path
  {
    BeforeWildcardMeaning(k);
    NoColonNoParam(path, k);
  }

  /** A parameter stands for at least one character, anything but a colon first; what precedes it is literal. */
  lemma ParamMatches(path: string, a: string, name: string)
    requires NoColon(a)
    ensures NamedParam(path, a + ":" + name) ==> a <= path && |path| > |a|
    ensures a <= path && |path| > |a| && path[|a|] != ':' ==> NamedParam(path, a + ":" + name)
  {
    var k := a + ":" + name;
    assert forall i :: 0 <= i < |a| ==> k[i] == a[i];
    assert k[|a|] == ':' && k[..|a|] == a;
    if NamedParam(path, k) && path != k {
      var i :| 0 <= i < |path| && i < |k| && path[..i] == k[..i] && path[i] != k[i] && k[i] == ':';
      assert i >= |a|;
      assert path[..|a|] == path[..i][..|a|] == k[..i][..|a|] == a;
    }
    if a <= path && |path| > |a| && path[|a|] != ':' {
      assert path[..|a|] == k[..|a|];
    }
  }

  /**
   A wildcard below `/static` serves exactly the paths that begin with `/static`, where
   there is no pool of exactly the path and no other pattern for it.
   */
  lemma WildcardServesExactly(keys: set<string>, path: string, a: string, rest: string)
    requires a + "/*" + rest in keys && path !in keys && NoColon(a + "/*" + rest)
    requires forall i :: 0 <= i < |a| ==> !("/*" <= (a + "/*" + rest)[i..])
    requires forall k :: k in keys && k != a + "/*" + rest ==> !Matches(path, k)
    ensures ResolvesTo(keys, path, a + "/*" + rest) <==> a <= path
    ensures Selected(keys, path, None) <==> !(a <= path)
  {
    WildcardMatchesExactly(path, a, rest);
    ResolvesToExactly(keys, path, a + "/*" + rest);
    hide Matches;
  }

  method FindPath(m: Pools, path: string) returns (k: Option<string>)
    ensures Selected(m.Keys, path, k)
  {
    if path in m {
      return Some(path);
    }
    var rest := m.Keys;
    while rest != {}
      invariant rest <= m.Keys
      invariant forall any :: any in m.Keys - rest ==> !Matches(path, any)
      decreases rest
    {
      var any :| any in rest;
      var named := MatchNamedParam(path, any);
      if MatchWildcard(path, any) || named {
        return Some(any);
      }
      rest := rest - {any};
    }
    return None;
  }

  // -------------------------------------------------------------------------
  // The balancer

  ghost predicate AllDistinct(ips: map<string, Pools>) {
    forall m, k :: m in ips && k in ips[m] ==> Distinct(ips[m][k].ips)
  }

  function PoolsOf(ips: map<string, Pools>, verb: string): Pools {
    if verb in ips then ips[verb] else map[]
  }

  function Added(p: Pool, ip: string): Pool {
    if ip in p.ips then p else p.(ips := p.ips + [ip])
  }

  lemma AddKeepsDistinct(ips: map<string, Pools>, verb: string, path: string, ip: string)
    requires AllDistinct(ips)
    ensures var pools := PoolsOf(ips, verb);
            var p := if path in pools then pools[path] else Pool([], 0);
            AllDistinct(ips[verb := pools[path := Added(p, ip)]])
  {
  }

  /**
   An address that was added for a path is in the pool that the path leads to, after the
   addresses that were there before, and once.  The empty path is that of the root.
   */
  lemma AddedIsServed(ips: map<string, Pools>, verb: string, path: string, ip: string, found: Option<string>)
    requires AllDistinct(ips)
    requires var pools := PoolsOf(ips, verb);
             var p := if Normal(path) in pools then pools[Normal(path)] else Pool([], 0);
             Selected(pools[Normal(path) := Added(p, ip)].Keys, Normal(path), found)
    ensures found == Some(if path == "" then "/" else path)
    ensures var pools, key := PoolsOf(ips, verb), if path == "" then "/" else path;
            var p := if key in pools then pools[key] else Pool([], 0);
            var q := Added(p, ip);
            && p.ips <= q.ips && ip in q.ips && q.actual == p.actual && Count(q.ips, ip) == 1
            && |q.ips| == |p.ips| + if ip in p.ips then 0 else 1
  {
    var pools := PoolsOf(ips, verb);
    var p := if Normal(path) in pools then pools[Normal(path)] else Pool([], 0);
    assert Distinct(p.ips);
    assert Distinct(Added(p, ip).ips);
    OnceEach(Added(p, ip).ips, ip);
    hide Count, Distinct;
  }

  class RoundRobin {
    var ips: map<string, Pools>

    /** No address is twice in a pool. */
    ghost predicate Valid()
      reads this
    {
      AllDistinct(ips)
    }

    constructor ()
      ensures Valid() && ips == map[]
    {
      ips := map[];
    }

    method AddAddrs(verb: string, path: string, ip: string)
      requires Valid()
      modifies this
      ensures Valid()
      ensures var pools := PoolsOf(old(ips), verb);
              var p := if Normal(path) in pools then pools[Normal(path)] else Pool([], 0);
              ips == old(ips)[verb := pools[Normal(path) := Added(p, ip)]]
    {
      ghost var start, pools := ips, PoolsOf(ips, verb);
      AddKeepsDistinct(ips, verb, Normal(path), ip);
      hide AllDistinct, Distinct;
      var key := if path == "" then "/" else path;
      if verb !in ips {
        ips := ips[verb := map[]];
      }
      var m := ips[verb];
      if key !in m {
        m := m[key := Pool([], 0)];
        ips := ips[verb := m];
      }
      var p := m[key];
      assert ips == start[verb := m] && m == pools[key := p];
      for i := 0 to |p.ips|
        invariant forall j :: 0 <= j < i ==> p.ips[j] != ip
      {
        if p.ips[i] == ip {
          assert Added(p, ip) == p;
          return;
        }
      }
      assert Added(p, ip) == p.(ips := p.ips + [ip]);
      p := p.(ips := p.ips + [ip]);
      assert m[key := p] == pools[key := p];
      ips := ips[verb := m[key := p]];
      assert ips == start[verb := pools[key := p]];
    }

    /** The ghost result names the pool that was walked into, if any. */
    method Next(verb: string, path: string) returns (dst: string, ghost found: Option<string>)
      requires Valid()
      modifies this
      ensures Valid()
      ensures Selected(PoolsOf(old(ips), verb).Keys, Normal(path), found)
      ensures found.None? ==> dst == "" && ips == old(ips)
      ensures found.Some? ==>
        var (p, ip) := Advance(old(ips)[verb][found.value]);
        dst == ip && ips == old(ips)[verb := old(ips)[verb][found.value := p]]
    {
      var key := if path == "" then "/" else path;
      if verb !in ips {
        return "", None;
      }
      var k := FindPath(ips[verb], key);
      found := k;
      if k.None? {
        return "", k;
      }
      var p := ips[verb][k.value];
      if |p.ips| <= 0 {
        assert ips[verb] == ips[verb][k.value := p];
        return "", k;
      }
      if p.actual >= |p.ips| {
        p := p.(actual := 0);
      }
      dst := p.ips[p.actual];
      p := p.(actual := p.actual + 1);
      ips := ips[verb := ips[verb][k.value := p]];
    }

    method Remove(verb: string, path: string, target: string) returns (ghost found: Option<string>)
      requires Valid()
      modifies this
      ensures Valid()
      ensures Selected(PoolsOf(old(ips), verb).Keys, Normal(path), found)
      ensures found.None? ==> ips == old(ips)
      ensures found.Some? ==>
        var p := old(ips)[verb][found.value];
        ips == old(ips)[verb := old(ips)[verb][found.value := p.(ips := Removed(p.ips, target))]]
    {
      var key := if path == "" then "/" else path;
      if verb !in ips {
        return None;
      }
      var k := FindPath(ips[verb], key);
      found := k;
      if k.None? {
        return;
      }
      var p := ips[verb][k.value];
      RemoveKeepsDistinct(p.ips, target);
      var left := Drop(p.ips, target);
      hide Removed, Distinct, Selected;
      ips := ips[verb := ips[verb][k.value := p.(ips := left)]];
    }
  }
}
