/** Base 64 with the standard alphabet and padding: section 4 of RFC 4648. */
module Base64 {
  import opened Options

  /** A Go string: a sequence of bytes. */
  type Bytes = s: string | forall i :: 0 <= i < |s| ==> s[i] as int < 256

  type Octet = c: char | c as int < 256 witness 'A'

  type Sextet = v: int | 0 <= v < 64

  function Symbol(v: Sextet): (c: char)
    ensures Value(c) == Some(v) && c as int < 256 && c != '='
  {
    if v < 26 then ('A' as int + v) as char
    else if v < 52 then ('a' as int + v - 26) as char
    else if v < 62 then ('0' as int + v - 52) as char
    else if v == 62 then '+'
    else '/'
  }

  function Value(c: char): Option<Sextet> {
    if 'A' <= c <= 'Z' then Some(c as int - 'A' as int)
    else if 'a' <= c <= 'z' then Some(c as int - 'a' as int + 26)
    else if '0' <= c <= '9' then Some(c as int - '0' as int + 52)
    else if c == '+' then Some(62)
    else if c == '/' then Some(63)
    else None
  }

  // The four groups of six bits in three bytes; a missing byte is zero.

  function Six1(a: Octet): Sextet { a as int / 4 }

  function Six2(a: Octet, b: Octet): Sextet { a as int % 4 * 16 + b as int / 16 }

  function Six3(b: Octet, c: Octet): Sextet { b as int % 16 * 4 + c as int / 64 }

  function Six4(c: Octet): Sextet { c as int % 64 }

  const ZERO: Octet := 0 as char

  // And back.

  function Eight1(v: Sextet, w: Sextet): Octet { (v * 4 + w / 16) as char }

  function Eight2(v: Sextet, w: Sextet): Octet { (v % 16 * 16 + w / 4) as char }

  function Eight3(v: Sextet, w: Sextet): Octet { (v % 4 * 64 + w) as char }

  lemma Regroup(a: Octet, b: Octet, c: Octet)
    ensures Eight1(Six1(a), Six2(a, b)) == a
    ensures Eight2(Six2(a, b), Six3(b, c)) == b
    ensures Eight3(Six3(b, c), Six4(c)) == c
  {
  }

  function Group(a: Octet, b: Octet, c: Octet): string {
    [Symbol(Six1(a)), Symbol(Six2(a, b)), Symbol(Six3(b, c)), Symbol(Six4(c))]
  }

  function Encode(s: Bytes): string {
    if s == "" then ""
    else if |s| == 1 then Group(s[0], ZERO, ZERO)[..2] + "=="
    else if |s| == 2 then Group(s[0], s[1], ZERO)[..3] + "="
    else Group(s[0], s[1], s[2]) + Encode(s[3..])
  }

  /**
   DecodeString on input without line breaks.  The bits that padding cuts off are not
   looked at.
   */
  function Decode(t: string): Option<Bytes> {
    if t == "" then Some("")
    else if |t| < 4 || Value(t[0]).None? || Value(t[1]).None? then None
    else
      var a, b := Value(t[0]).value, Value(t[1]).value;
      if t[2] == '=' then
        if t[3] == '=' && |t| == 4 then Some([Eight1(a, b)]) else None
      else if Value(t[2]).None? then None
      else
        var c := Value(t[2]).value;
        if t[3] == '=' then
          if |t| == 4 then Some([Eight1(a, b), Eight2(b, c)]) else None
        else if Value(t[3]).None? then None
        else
          var rest := Decode(t[4..]);
          if rest.None? then None
          else Some([Eight1(a, b), Eight2(b, c), Eight3(c, Value(t[3]).value)] + rest.value)
  }

  lemma DecodeGroup(a: Octet, b: Octet, c: Octet, t: string)
    requires Decode(t).Some?
    ensures Decode(Group(a, b, c) + t) == Some([a, b, c] + Decode(t).value)
    ensures Decode(Group(a, b, ZERO)[..3] + "=") == Some([a, b])
    ensures Decode(Group(a, ZERO, ZERO)[..2] + "==") == Some([a])
  {
    Regroup(a, b, c);
    Regroup(a, b, ZERO);
    Regroup(a, ZERO, ZERO);
    hide Eight1, Eight2, Eight3, Six1, Six2, Six3, Six4, Symbol;
    assert (Group(a, b, c) + t)[4..] == t;
  }

  lemma {:induction false} RoundTrip(s: Bytes)
    ensures Decode(Encode(s)) == Some(s)
  {
    assert Decode("") == Some("");
    hide Group, Decode;
    if |s| >= 3 {
      RoundTrip(s[3..]);
      DecodeGroup(s[0], s[1], s[2], Encode(s[3..]));
      assert s == [s[0], s[1], s[2]] + s[3..];
    } else if |s| == 2 {
      DecodeGroup(s[0], s[1], ZERO, "");
      assert s == [s[0], s[1]];
    } else if |s| == 1 {
      DecodeGroup(s[0], ZERO, ZERO, "");
      assert s == [s[0]];
    }
  }

  /** The symbols of an encoding are of the alphabet or the padding. */
  lemma {:induction false} EncodeAlphabet(s: Bytes)
    ensures forall i :: 0 <= i < |Encode(s)| ==> Encode(s)[i] == '=' || Value(Encode(s)[i]).Some?
    ensures Encode(s) == "" ==> s == ""
  {
    if |s| >= 3 {
      EncodeAlphabet(s[3..]);
      hide Value, Symbol;
    }
  }

  lemma EncodeIsInjective(s: Bytes, t: Bytes)
    ensures Encode(s) == Encode(t) <==> s == t
  {
    RoundTrip(s);
    RoundTrip(t);
  }

  // -------------------------------------------------------------------------
  // The alphabet and the groups, as the standard has them

  /** Table 1 of section 4 of RFC 4648: capitals, small letters, digits, plus and slash, each in their order. */
  lemma SymbolsExactly(v: Sextet)
    ensures Symbol(0) == 'A' && Symbol(25) == 'Z' && Symbol(26) == 'a' && Symbol(51) == 'z'
    ensures Symbol(52) == '0' && Symbol(61) == '9' && Symbol(62) == '+' && Symbol(63) == '/'
    ensures v != 25 && v != 51 && v < 61 ==> Symbol(v + 1) as int == Symbol(v) as int + 1
  {
  }

  lemma Digits(d1: Sextet, d2: Sextet, d3: Sextet, d4: Sextet)
    ensures var n := 262144 * d1 + 4096 * d2 + 64 * d3 + d4;
            && n / 262144 == d1 && n / 4096 % 64 == d2 && n / 64 % 64 == d3 && n % 64 == d4
  {
    var n := 262144 * d1 + 4096 * d2 + 64 * d3 + d4;
    assert n / 64 == 4096 * d1 + 64 * d2 + d3;
    assert n / 4096 == 64 * d1 + d2;
  }

  lemma BytesAsDigits(a: Octet, b: Octet, c: Octet)
    ensures a as int * 65536 + b as int * 256 + c as int
      == 262144 * Six1(a) + 4096 * Six2(a, b) + 64 * Six3(b, c) + Six4(c)
  {
  }

  /** Three bytes are a number of 24 bits, and its four digits to the base 64 are written. */
  lemma EncodesThree(a: Octet, b: Octet, c: Octet, t: Bytes)
    ensures var n := a as int * 65536 + b as int * 256 + c as int;
            Encode([a, b, c] + t) ==
              [Symbol(n / 262144), Symbol(n / 4096 % 64), Symbol(n / 64 % 64), Symbol(n % 64)] + Encode(t)
  {
    BytesAsDigits(a, b, c);
    Digits(Six1(a), Six2(a, b), Six3(b, c), Six4(c));
    hide Symbol, Six1, Six2, Six3, Six4;
    assert ([a, b, c] + t)[3..] == t;
  }

  /** One or two bytes at the end are followed by zero bits, and by padding to four symbols. */
  lemma EncodesRest(a: Octet, b: Octet)
    ensures var n := a as int * 65536;
            Encode([a]) == [Symbol(n / 262144), Symbol(n / 4096 % 64), '=', '=']
    ensures var n := a as int * 65536 + b as int * 256;
            Encode([a, b]) == [Symbol(n / 262144), Symbol(n / 4096 % 64), Symbol(n / 64 % 64), '=']
  {
    BytesAsDigits(a, ZERO, ZERO);
    BytesAsDigits(a, b, ZERO);
    Digits(Six1(a), Six2(a, ZERO), Six3(ZERO, ZERO), Six4(ZERO));
    Digits(Six1(a), Six2(a, b), Six3(b, ZERO), Six4(ZERO));
    hide Symbol, Six1, Six2, Six3, Six4;
  }

  /** The padding at the end: none, one or two. */
  function Padding(t: string): (p: nat)
    ensures p <= |t|
  {
    if |t| >= 2 && t[|t| - 1] == '=' && t[|t| - 2] == '=' then 2
    else if |t| >= 1 && t[|t| - 1] == '=' then 1
    else 0
  }

  /** What decodes is a multiple of four symbols, all of the alphabet but for the padding at the end. */
  lemma {:induction false} DecodesExactly(t: string)
    ensures Decode(t).Some? <==> |t| % 4 == 0 && forall i :: 0 <= i < |t| - Padding(t) ==> Value(t[i]).Some?
  {
    if |t| >= 4 {
      var r := t[4..];
      DecodesExactly(r);
      assert forall i :: 0 <= i < |r| ==> r[i] == t[i + 4];
      assert |t| > 4 && |t| % 4 == 0 ==> Padding(t) == Padding(r);
      hide Padding, Value;
      FirstFour(t);
    }
  }

  lemma FirstFour(t: string)
    requires |t| >= 4
    ensures |t| > 4 ==> (Decode(t).Some? <==>
              Value(t[0]).Some? && Value(t[1]).Some? && Value(t[2]).Some? && Value(t[3]).Some? && Decode(t[4..]).Some?)
    ensures |t| == 4 ==> (Decode(t).Some? <==> forall i :: 0 <= i < 4 - Padding(t) ==> Value(t[i]).Some?)
  {
    assert Value('=').None?;
    hide Eight1, Eight2, Eight3;
    if |t| == 4 {
      assert t[4..] == "" && Decode(t[4..]) == Some("");
    }
  }

  /** A padded group gives its first bytes, whatever the bits that the padding cuts off. */
  lemma DecodesRest(v: Sextet, w: Sextet, x: Sextet)
    ensures Decode([Symbol(v), Symbol(w), '=', '=']) == Some([((v * 64 + w) / 16) as char])
    ensures Decode([Symbol(v), Symbol(w), Symbol(x), '=']) ==
      Some([((v * 4096 + w * 64 + x) / 1024) as char, ((v * 4096 + w * 64 + x) / 4 % 256) as char])
  {
    BitsOfRest(v, w, x);
    hide Symbol, Value;
  }

  lemma BitsOfRest(v: Sextet, w: Sextet, x: Sextet)
    ensures (v * 64 + w) / 16 == v * 4 + w / 16
    ensures (v * 4096 + w * 64 + x) / 1024 == v * 4 + w / 16
    ensures (v * 4096 + w * 64 + x) / 4 % 256 == w % 16 * 16 + x / 4
  {
    var h, l, m := w / 16, w % 16, x / 4;
    assert w == 16 * h + l && x == 4 * m + x % 4;
    assert (v * 4096 + w * 64 + x) / 4 == 256 * (4 * v + h) + (16 * l + m);
  }
}
