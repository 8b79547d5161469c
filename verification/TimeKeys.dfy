/**
 The time keys of the bolt session store (sessions/boltdb.go).

 A timestamp is written as a zigzag varint into a zeroed buffer of ten bytes and
 the buffer is then reversed, so that the byte order bolt keeps its keys in is
 meant to be the order of time.  `Key` is the value that the store computes; the
 methods are the in-place code that computes it.
 */
module TimeKeys {
  type byte = x: int | 0 <= x < 256
  type Bytes = seq<byte>

  const TWO_63: int := 0x8000_0000_0000_0000
  const TWO_64: int := 0x1_0000_0000_0000_0000
  type int64 = x: int | -0x8000_0000_0000_0000 <= x < 0x8000_0000_0000_0000
  type uint64 = x: int | 0 <= x < 0x1_0000_0000_0000_0000

  // binary.MaxVarintLen64
  const MAX_VARINT_LEN64: nat := 10

  // -------------------------------------------------------------------------
  // Varints

  /** `uint64(x) << 1`, complemented when x is negative. */
  function ZigZag(x: int64): (ux: uint64)
    ensures ux == if x >= 0 then 2 * x else -2 * x - 1
  {
    var shifted := (2 * x) % TWO_64;
    if x < 0 then TWO_64 - 1 - shifted else shifted
  }

  /** `int64(ux >> 1)`, complemented when the low bit of ux is set. */
  function UnZigZag(ux: uint64): (x: int64)
    ensures ZigZag(x) == ux
  {
    var x := ux / 2;
    if ux % 2 != 0 then -1 - x else x
  }

  /** The byte for the quotient q: its seven low bits, and the top bit if more follow. */
  function Septet(q: nat): byte {
    if q >= 0x80 then q % 0x80 + 0x80 else q
  }

  /** What is left of q after its seven low bits. */
  function Rest(q: nat): nat {
    q / 0x80
  }

  /** The first n bytes of the varint of q in a zeroed buffer. */
  function Padded(q: nat, n: nat): (s: Bytes)
    ensures |s| == n
  {
    if n == 0 then [] else [Septet(q)] + Padded(Rest(q), n - 1)
  }

  function Reversed(s: Bytes): (r: Bytes)
    ensures |r| == |s|
    ensures forall i :: 0 <= i < |s| ==> r[i] == s[|s| - 1 - i]
  {
    if s == [] then [] else Reversed(s[1..]) + [s[0]]
  }

  /** The key stored for the time x in nanoseconds. */
  function Key(x: int64): (k: Bytes)
    ensures |k| == MAX_VARINT_LEN64
  {
    Reversed(Padded(ZigZag(x), MAX_VARINT_LEN64))
  }

  lemma {:induction false} PaddedZero(n: nat)
    ensures Padded(0, n) == seq(n, _ => 0)
  {
    if n > 0 {
      PaddedZero(n - 1);
      assert seq(n, _ => 0) == [0] + seq(n - 1, _ => 0);
    }
  }

  function Pow128(n: nat): (p: nat)
    ensures p >= 1
  {
    if n == 0 then 1 else 0x80 * Pow128(n - 1)
  }

  /** n septets are enough for q. */
  predicate Fits(q: nat, n: nat) {
    q < Pow128(n)
  }

  lemma Pow128Values()
    ensures Pow128(0) == 1 && Pow128(1) == 0x80
    ensures Pow128(9) == TWO_63
    ensures Pow128(10) > TWO_64
  {
    assert Pow128(3) == 0x20_0000;
    assert Pow128(6) == 0x80 * (0x80 * (0x80 * Pow128(3)));
    assert Pow128(9) == 0x80 * (0x80 * (0x80 * Pow128(6)));
  }

  /** binary.PutVarint on the zeroed buffer that the store allocates for each key. */
  method PutVarint(buf: array<byte>, x: int64) returns (n: nat)
    requires buf.Length == MAX_VARINT_LEN64
    requires forall i :: 0 <= i < buf.Length ==> buf[i] == 0
    modifies buf
    ensures buf[..] == Padded(ZigZag(x), MAX_VARINT_LEN64)
    ensures 1 <= n <= MAX_VARINT_LEN64
  {
    var ux: nat := ZigZag(x);
    n := 0;
    assert Fits(ux, MAX_VARINT_LEN64) by { Pow128Values(); }
    ghost var done: Bytes := [];
    hide Padded, Fits, ZigZag, Septet, Rest, Zeros;
    while ux >= 0x80
      invariant n < MAX_VARINT_LEN64 && Fits(ux, MAX_VARINT_LEN64 - n)
      invariant buf[..] == done + Zeros(MAX_VARINT_LEN64 - n) && |done| == n
      invariant done + Padded(ux, MAX_VARINT_LEN64 - n) == Padded(ZigZag(x), MAX_VARINT_LEN64)
    {
      NextSeptet(ux, MAX_VARINT_LEN64 - n);
      Concat(done, Septet(ux), Padded(Rest(ux), MAX_VARINT_LEN64 - n - 1));
      OneWritten(done, Septet(ux), MAX_VARINT_LEN64 - n);
      buf[n] := Septet(ux);
      done := done + [Septet(ux)];
      ux := Rest(ux);
      n := n + 1;
    }
    LastSeptet(ux, MAX_VARINT_LEN64 - n);
    Concat(done, ux, Zeros(MAX_VARINT_LEN64 - n - 1));
    OneWritten(done, ux, MAX_VARINT_LEN64 - n);
    buf[n] := ux;
    n := n + 1;
  }

  function Zeros(n: nat): (z: Bytes)
    ensures |z| == n
  {
    seq(n, _ => 0)
  }

  lemma OneWritten(done: Bytes, b: byte, n: nat)
    requires n > 0
    ensures (done + Zeros(n))[|done| := b] == done + [b] + Zeros(n - 1)
  {
  }

  lemma Concat(a: Bytes, b: byte, c: Bytes)
    ensures a + ([b] + c) == a + [b] + c
  {
  }

  lemma NextSeptet(q: nat, n: nat)
    requires 0x80 <= q && Fits(q, n)
    ensures n >= 2 && Fits(Rest(q), n - 1) && Rest(q) < q
    ensures Padded(q, n) == [Septet(q)] + Padded(Rest(q), n - 1)
  {
    if n > 0 {
      QuotientBound(q, Pow128(n - 1));
    }
  }

  lemma LastSeptet(q: nat, n: nat)
    requires q < 0x80 && n > 0
    ensures Padded(q, n) == [q] + Zeros(n - 1)
  {
    PaddedZero(n - 1);
  }

  /** `x | uint64(b) << s`, where scale is 2 to the s and x has no bit set from there on. */
  function WithByte(x: uint64, b: nat, scale: nat): uint64 {
    (x + b * scale) % TWO_64
  }

  /** The loop of binary.Uvarint: s is what is left of the buffer, x and scale what was read. */
  function UvarintFrom(s: Bytes, i: nat, x: uint64, scale: nat): uint64 {
    if s == [] || i == MAX_VARINT_LEN64 then 0
    else
      var b := s[0];
      if b < 0x80 then
        if i == 9 && b > 1 then 0 else WithByte(x, b, scale)
      else
        UvarintFrom(s[1..], i + 1, WithByte(x, b % 0x80, scale), 0x80 * scale)
  }

  /** The value part of binary.Varint. */
  function Varint(s: Bytes): int64 {
    UnZigZag(UvarintFrom(s, 0, 0, 1))
  }

  /** binary.Varint, whose second result no caller looks at. */
  method ReadVarint(buf: array<byte>) returns (x: int64)
    ensures x == Varint(buf[..])
  {
    var ux: uint64 := 0;
    var scale: nat := 1;
    var i: nat := 0;
    while i < buf.Length
      invariant i <= buf.Length && i <= MAX_VARINT_LEN64
      invariant UvarintFrom(buf[i..], i, ux, scale) == UvarintFrom(buf[..], 0, 0, 1)
    {
      assert buf[i..][0] == buf[i] && buf[i..][1..] == buf[i + 1..];
      if i == MAX_VARINT_LEN64 {
        return UnZigZag(0);
      }
      var b := buf[i];
      if b < 0x80 {
        if i == 9 && b > 1 {
          return UnZigZag(0);
        }
        return UnZigZag(WithByte(ux, b, scale));
      }
      ux := WithByte(ux, b % 0x80, scale);
      scale := 0x80 * scale;
      i := i + 1;
    }
    x := UnZigZag(0);
  }

  // -------------------------------------------------------------------------
  // Byte reversal

  method InvertBytesOrder(buf: array?<byte>)
    modifies if buf != null then {buf} else {}
    ensures buf != null ==> buf[..] == Reversed(old(buf[..]))
  {
    if buf == null {
      return;
    }
    var l := buf.Length;
    var i := 0;
    while i < l / 2
      invariant 0 <= i <= l / 2
      invariant forall k :: 0 <= k < i ==> buf[k] == old(buf[l - 1 - k]) && buf[l - 1 - k] == old(buf[k])
      invariant forall k :: i <= k < l - i ==> buf[k] == old(buf[k])
    {
      buf[i], buf[l - i - 1] := buf[l - i - 1], buf[i];
      i := i + 1;
    }
    assert buf[..] == Reversed(old(buf[..]));
  }

  method InvertBytes(buf: array?<byte>) returns (out: array?<byte>)
    ensures buf == null ==> out == null
    ensures buf != null ==> out != null && fresh(out) && out[..] == Reversed(buf[..])
  {
    if buf == null {
      return null;
    }
    out := new byte[buf.Length](i requires 0 <= i < buf.Length reads buf => buf[i]);
    assert out[..] == buf[..];
    var l := out.Length;
    var i := 0;
    while i < l / 2
      invariant 0 <= i <= l / 2
      invariant forall k :: 0 <= k < i ==> out[k] == buf[l - 1 - k] && out[l - 1 - k] == buf[k]
      invariant forall k :: i <= k < l - i ==> out[k] == buf[k]
    {
      out[i], out[l - i - 1] := out[l - i - 1], out[i];
      i := i + 1;
    }
    assert out[..] == Reversed(buf[..]);
  }

  /** What New and Restore put in the two timestamp buckets for the time nano. */
  method EncodeTime(nano: int64) returns (buf: array<byte>)
    ensures fresh(buf) && buf[..] == Key(nano)
  {
    buf := new byte[MAX_VARINT_LEN64](_ => 0);
    var _ := PutVarint(buf, nano);
    InvertBytesOrder(buf);
  }

  /** What Restore and Ttl read back from a stored key. */
  method DecodeTime(key: Bytes) returns (nano: int64)
    ensures nano == Varint(Reversed(key))
  {
    var buf := new byte[|key|](i requires 0 <= i < |key| => key[i]);
    assert buf[..] == key;
    var out := InvertBytes(buf);
    nano := ReadVarint(out);
  }

  // -------------------------------------------------------------------------
  // Round trip

  lemma SplitSeptet(q: nat, low: nat, high: nat, scale: nat)
    requires low == q % 0x80 && high == q / 0x80
    ensures q * scale == high * (0x80 * scale) + low * scale
    ensures high * (0x80 * scale) >= 0
    ensures 0 <= low * scale <= 0x7f * scale
  {
    assert q == 0x80 * high + low;
  }

  lemma SmallQuotient(q: nat)
    requires q * TWO_63 < TWO_64
    ensures q <= 1
  {
  }

  lemma LastByte(s: Bytes, i: nat, x: uint64, scale: nat)
    requires s != [] && s[0] < 0x80 && i < MAX_VARINT_LEN64 && (i == 9 ==> s[0] <= 1)
    requires x + s[0] * scale < TWO_64
    ensures UvarintFrom(s, i, x, scale) == x + s[0] * scale
  {
  }

  lemma MoreBytes(s: Bytes, i: nat, x: uint64, scale: nat, low: nat)
    requires s != [] && s[0] >= 0x80 && i < MAX_VARINT_LEN64 && low == s[0] % 0x80
    requires x + low * scale < TWO_64
    ensures UvarintFrom(s, i, x, scale) == UvarintFrom(s[1..], i + 1, x + low * scale, 0x80 * scale)
  {
    assert WithByte(x, low, scale) == x + low * scale;
    hide WithByte;
  }

  lemma {:induction false} DecodePadded(q: nat, i: nat, x: nat, scale: nat)
    requires i < MAX_VARINT_LEN64 && scale == Pow128(i)
    requires x < scale && x + q * scale < TWO_64
    ensures UvarintFrom(Padded(q, MAX_VARINT_LEN64 - i), i, x, scale) == x + q * scale
    decreases q
  {
    var low, high := q % 0x80, q / 0x80;
    SplitSeptet(q, low, high, scale);
    var s := Padded(q, MAX_VARINT_LEN64 - i);
    assert s[0] == Septet(q) && s[1..] == Padded(high, MAX_VARINT_LEN64 - i - 1);
    if q < 0x80 {
      if i == 9 {
        Pow128Values();
        SmallQuotient(q);
      }
      LastByte(s, i, x, scale);
    } else {
      if i == 9 {
        Pow128Values();
        SmallQuotient(q);
        assert false;
      }
      MoreBytes(s, i, x, scale, low);
      DecodePadded(high, i + 1, x + low * scale, 0x80 * scale);
    }
  }

  lemma ReversedTwice(s: Bytes)
    ensures Reversed(Reversed(s)) == s
  {
  }

  /** Every time an int64 can hold comes back from its key, before and after the epoch. */
  lemma KeyRoundTrip(x: int64)
    ensures Varint(Reversed(Key(x))) == x
  {
    hide Padded, UvarintFrom, Reversed;
    ReversedTwice(Padded(ZigZag(x), MAX_VARINT_LEN64));
    Pow128Values();
    DecodePadded(ZigZag(x), 0, 0, 1);
  }

  // -------------------------------------------------------------------------
  // Order

  /** bytes.Compare(a, b) < 0, the order bolt sorts its keys in. */
  predicate Below(a: Bytes, b: Bytes) {
    if b == [] then false
    else if a == [] then true
    else a[0] < b[0] || (a[0] == b[0] && Below(a[1..], b[1..]))
  }

  lemma {:induction false} BelowAppend(a: Bytes, b: Bytes, x: byte, y: byte)
    requires |a| == |b|
    ensures Below(a + [x], b + [y]) <==> Below(a, b) || (a == b && x < y)
  {
    if a == [] {
      assert a + [x] == [x] && b + [y] == [y];
    } else {
      assert (a + [x])[1..] == a[1..] + [x] && (b + [y])[1..] == b[1..] + [y];
      assert a == [a[0]] + a[1..] && b == [b[0]] + b[1..];
      BelowAppend(a[1..], b[1..], x, y);
    }
  }

  lemma QuotientBound(q: nat, p: nat)
    requires q < 0x80 * p
    ensures q / 0x80 < p
  {
  }

  lemma SeptetOrder(p: nat, q: nat)
    ensures p < q <==> p / 0x80 < q / 0x80 || (p / 0x80 == q / 0x80 && Septet(p) < Septet(q))
    ensures p == q <==> p / 0x80 == q / 0x80 && Septet(p) == Septet(q)
  {
    assert p == 0x80 * (p / 0x80) + p % 0x80 && q == 0x80 * (q / 0x80) + q % 0x80;
  }

  /** Reversed padded varints of numbers that fit compare as the numbers do. */
  lemma {:induction false} PaddedOrder(p: nat, q: nat, n: nat)
    requires p < Pow128(n) && q < Pow128(n)
    ensures Below(Reversed(Padded(p, n)), Reversed(Padded(q, n))) <==> p < q
    ensures Padded(p, n) == Padded(q, n) <==> p == q
  {
    if n > 0 {
      SeptetOrder(p, q);
      QuotientBound(p, Pow128(n - 1));
      QuotientBound(q, Pow128(n - 1));
      PaddedOrder(Rest(p), Rest(q), n - 1);
      var a, b := Padded(Rest(p), n - 1), Padded(Rest(q), n - 1);
      assert Padded(p, n)[1..] == a && Padded(q, n)[1..] == b;
      BelowAppend(Reversed(a), Reversed(b), Septet(p), Septet(q));
      ReversedTwice(a);
      ReversedTwice(b);
    }
  }

  lemma KeyFollowsZigZag(x: int64, y: int64)
    ensures Below(Key(x), Key(y)) <==> ZigZag(x) < ZigZag(y)
    ensures Key(x) == Key(y) <==> x == y
  {
    Pow128Values();
    PaddedOrder(ZigZag(x), ZigZag(y), MAX_VARINT_LEN64);
    if Key(x) == Key(y) {
      KeyRoundTrip(x);
      KeyRoundTrip(y);
    }
  }

  /** From the epoch on, the key order is the order of time. */
  lemma KeyOrderIsChronological(x: int64, y: int64)
    requires x >= 0 && y >= 0
    ensures Below(Key(x), Key(y)) <==> x < y
  {
    KeyFollowsZigZag(x, y);
  }

  /** Before the epoch it is not: the exact pairs of times that keep their order. */
  lemma KeyOrderExactly(x: int64, y: int64)
    ensures (Below(Key(x), Key(y)) <==> x < y) <==> (x == y || x + y >= 0)
  {
    KeyFollowsZigZag(x, y);
  }

  lemma KeyOrderBeforeEpoch()
    ensures -2 < -1 && Below(Key(-1), Key(-2))
  {
    KeyFollowsZigZag(-1, -2);
  }

  // -------------------------------------------------------------------------
  // The bytes

  /** Byte i of a varint holds the bits from 7 i on, and says whether there are more. */
  lemma {:induction false} PaddedBytes(q: nat, n: nat, i: nat)
    requires i < n
    ensures Padded(q, n)[i] ==
      var rest := q / Pow128(i); if rest >= 128 then rest % 128 + 128 else rest
  {
    if i > 0 {
      PaddedBytes(Rest(q), n - 1, i - 1);
      QuotientTwice(q, Pow128(i - 1));
    }
  }

  lemma QuotientTwice(q: nat, p: nat)
    requires p > 0
    ensures q / 0x80 / p == q / (0x80 * p)
  {
    var a := q / 0x80;
    var b, low := a / p, 0x80 * (a % p) + q % 0x80;
    assert a == p * b + a % p && q == 0x80 * a + q % 0x80;
    assert 0x80 * (p * b) == (0x80 * p) * b;
    QuotientIs(q, 0x80 * p, b, low);
  }

  lemma QuotientIs(q: nat, m: nat, b: nat, s: nat)
    requires s < m && q == m * b + s
    ensures q / m == b
  {
    var e := q / m - b;
    assert q == m * (q / m) + q % m;
    assert m * e == s - q % m;
    assert e >= 1 ==> m * e >= m;
    assert e <= -1 ==> m * e <= m * -1;
  }

  /** The key of a time: ten bytes, its zigzag number to the base 128 with the lowest digit last. */
  lemma KeyBytes(x: int64, i: nat)
    requires i < 10
    ensures |Key(x)| == 10
    ensures Key(x)[9 - i] ==
      var rest := (if x >= 0 then 2 * x else -2 * x - 1) / Pow128(i);
      if rest >= 128 then rest % 128 + 128 else rest
  {
    PaddedBytes(ZigZag(x), 10, i);
    hide Padded;
  }

  /** Bytes that go on after the end of the buffer, or beyond 64 bits, are read as zero. */
  lemma {:induction false} UnfinishedIsZero(s: Bytes, i: nat, x: uint64, scale: nat, n: nat)
    requires i <= 10 && n <= |s| && forall k :: 0 <= k < n ==> s[k] >= 0x80
    requires (n == |s| && i + n <= 10) || i + n == 10 || (i + n == 9 && n < |s| && 2 <= s[n])
    ensures UvarintFrom(s, i, x, scale) == 0
    decreases n
  {
    if n > 0 && i < 10 {
      UnfinishedIsZero(s[1..], i + 1, WithByte(x, s[0] % 0x80, scale), 0x80 * scale, n - 1);
    } else if n == 0 && i == 9 && s != [] && s[0] >= 0x80 {
      assert UvarintFrom(s[1..], 10, WithByte(x, s[0] % 0x80, scale), 0x80 * scale) == 0;
    }
  }

  lemma OverflowIsZero(s: Bytes, n: nat)
    requires n <= |s| && forall k :: 0 <= k < n ==> s[k] >= 0x80
    requires (n == |s| && n <= 10) || n == 10 || (n == 9 && n < |s| && 2 <= s[n])
    ensures Varint(s) == 0
  {
    UnfinishedIsZero(s, 0, 0, 1, n);
  }
}
