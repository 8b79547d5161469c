/**
 Basic authentication (middlewares/basicauth): the parser of the Authorization header
 (basic.go) and the store of passwords (handler.go).

 Strings are bytes.  A digest is an opaque string of bytes for each hash name: the hash
 objects are never written to, so it is the same for every password.
 */
module BasicAuth {
  import opened Options
  import opened Base64

  datatype Error =
    | NoAuthHeader | InvalidAuthHeader | InvalidAuthString | InvalidAuthScheme
    | DecodeUsrPass | InvalidUsrPassString
    | InvName | BlankPass | InvHash

  datatype Parsed = Credentials(user: Bytes, pass: Bytes) | Refused(error: Error)

  // -------------------------------------------------------------------------
  // Strings

  predicate IsSpace(c: char) {
    c == ' ' || '\t' <= c <= '\r'
  }

  /** strings.Fields, with the field read so far. */
  function FieldsFrom(s: string, field: string): seq<string> {
    if s == "" then if field == "" then [] else [field]
    else if IsSpace(s[0]) then (if field == "" then [] else [field]) + FieldsFrom(s[1..], "")
    else FieldsFrom(s[1..], field + [s[0]])
  }

  function Fields(s: string): seq<string> {
    FieldsFrom(s, "")
  }

  predicate NoSpace(s: string) {
    forall i :: 0 <= i < |s| ==> !IsSpace(s[i])
  }

  lemma {:induction false} FieldsOfWord(w: string, rest: string, field: string)
    requires NoSpace(w) && field + w != "" && (rest == "" || IsSpace(rest[0]))
    ensures FieldsFrom(w + rest, field) == [field + w] + (if rest == "" then [] else FieldsFrom(rest[1..], ""))
  {
    if w == "" {
      assert w + rest == rest && field + w == field;
    } else {
      assert (w + rest)[0] == w[0] && (w + rest)[1..] == w[1..] + rest;
      assert field + w == (field + [w[0]]) + w[1..];
      FieldsOfWord(w[1..], rest, field + [w[0]]);
    }
  }

  /** strings.Split(s, ":"), with the piece read so far. */
  function SplitFrom(s: Bytes, piece: Bytes): (r: seq<Bytes>)
    ensures |r| >= 1
  {
    if s == "" then [piece]
    else if s[0] == ':' then [piece] + SplitFrom(s[1..], "")
    else SplitFrom(s[1..], piece + [s[0]])
  }

  function Split(s: Bytes): seq<Bytes> {
    SplitFrom(s, "")
  }

  predicate ColonFree(s: string) {
    ':' !in s
  }

  lemma {:induction false} SplitAtColon(u: Bytes, q: Bytes, piece: Bytes)
    requires ColonFree(u)
    ensures SplitFrom(u + ":" + q, piece) == [piece + u] + SplitFrom(q, "")
  {
    var s := u + ":" + q;
    if u == "" {
      assert s == ":" + q && s[1..] == q && piece + u == piece;
    } else {
      assert s[0] == u[0] && s[1..] == u[1..] + ":" + q;
      assert piece + u == (piece + [u[0]]) + u[1..];
      SplitAtColon(u[1..], q, piece + [u[0]]);
    }
  }

  lemma {:induction false} SplitWithoutColon(q: Bytes, piece: Bytes)
    ensures |SplitFrom(q, piece)| == 1 <==> ColonFree(q)
    ensures ColonFree(q) ==> SplitFrom(q, piece) == [piece + q]
  {
    if q != "" {
      assert q == [q[0]] + q[1..];
      if q[0] != ':' {
        SplitWithoutColon(q[1..], piece + [q[0]]);
        assert piece + q == (piece + [q[0]]) + q[1..];
      }
    } else {
      assert piece + q == piece;
    }
  }

  lemma SplitHere(s: Bytes, piece: Bytes)
    requires s != "" && s[0] == ':' && |SplitFrom(s, piece)| == 2
    ensures SplitFrom(s, piece)[0] == piece && SplitFrom(s, piece)[1] == s[1..] && ColonFree(s[1..])
  {
    var rest: Bytes := s[1..];
    assert SplitFrom(s, piece) == [piece] + SplitFrom(rest, "");
    assert |SplitFrom(rest, "")| == 1;
    hide SplitFrom;
    SplitWithoutColon(rest, "");
    assert "" + rest == rest;
  }

  /** Two pieces are what stands on either side of the only colon. */
  lemma {:induction false} SplitInTwo(s: Bytes, piece: Bytes)
    requires ColonFree(piece) && |SplitFrom(s, piece)| == 2
    ensures var r := SplitFrom(s, piece);
            ColonFree(r[0]) && ColonFree(r[1]) && piece + s == r[0] + ":" + r[1]
  {
    if s[0] == ':' {
      SplitHere(s, piece);
      assert s == ":" + s[1..];
    } else {
      var longer: Bytes := piece + [s[0]];
      SplitInTwo(s[1..], longer);
      assert piece + s == longer + s[1..];
    }
  }

  // -------------------------------------------------------------------------
  // The Authorization header

  function Basic(auth: seq<string>): Parsed {
    if |auth| <= 0 then Refused(InvalidAuthHeader)
    else
      var s := Fields(auth[0]);
      if |s| != 2 then Refused(InvalidAuthString)
      else if s[0] != "Basic" then Refused(InvalidAuthScheme)
      else
        var data := Decode(s[1]);
        if data.None? then Refused(DecodeUsrPass)
        else
          var usrpass := Split(data.value);
          if |usrpass| != 2 then Refused(InvalidUsrPassString)
          else Credentials(usrpass[0], usrpass[1])
  }

  /** What a client sends for a user and a password: section 2 of RFC 7617. */
  function Header(u: Bytes, q: Bytes): string {
    "Basic " + Encode(u + ":" + q)
  }

  lemma HeaderFields(t: string)
    requires t != "" && NoSpace(t)
    ensures Fields("Basic " + t) == ["Basic", t]
  {
    var rest := " " + t;
    assert "Basic " + t == "Basic" + rest && rest[1..] == t && "" + "Basic" == "Basic";
    FieldsOfWord("Basic", rest, "");
    assert t + "" == t && "" + t == t;
    FieldsOfWord(t, "", "");
  }

  lemma HeaderDecodes(u: Bytes, q: Bytes)
    ensures Fields(Header(u, q)) == ["Basic", Encode(u + ":" + q)]
    ensures Decode(Encode(u + ":" + q)) == Some(u + ":" + q)
  {
    var s: Bytes := u + ":" + q;
    EncodeAlphabet(s);
    HeaderFields(Encode(s));
    RoundTrip(s);
  }

  /** The credentials come back exactly when neither of them holds a colon. */
  lemma BasicExactly(u: Bytes, q: Bytes)
    ensures Basic([Header(u, q)]) == Credentials(u, q) <==> ColonFree(u) && ColonFree(q)
    ensures Basic([Header(u, q)]) != Credentials(u, q) ==> Basic([Header(u, q)]) == Refused(InvalidUsrPassString)
  {
    HeaderDecodes(u, q);
    var s := u + ":" + q;
    if ColonFree(u) {
      SplitAtColon(u, q, "");
      SplitWithoutColon(q, "");
      assert "" + u == u && "" + q == q;
    } else if |Split(s)| == 2 {
      SplitInTwo(s, "");
      var r := Split(s);
      assert "" + s == s;
      OneColon(u, q, r[0], r[1]);
    }
  }

  lemma OneColon(u: string, q: string, a: string, b: string)
    requires u + ":" + q == a + ":" + b && ColonFree(a) && ColonFree(b)
    ensures u == a && q == b
  {
    var s := u + ":" + q;
    assert s[|u|] == ':' && s[|a|] == ':';
    assert forall i :: 0 <= i < |s| && i != |a| ==> s[i] != ':' by {
      assert forall i :: 0 <= i < |a| ==> s[i] == a[i];
      assert forall i :: |a| < i < |s| ==> s[i] == b[i - |a| - 1];
    }
    assert |u| == |a|;
    assert u == s[..|u|] && a == s[..|a|];
    assert q == s[|u| + 1..] && b == s[|a| + 1..];
  }

  /** Whatever is accepted is the scheme and an encoding of two colon-free halves. */
  lemma BasicSound(auth: seq<string>)
    requires Basic(auth).Credentials?
    ensures var c := Basic(auth);
            && ColonFree(c.user) && ColonFree(c.pass)
            && exists t :: Fields(auth[0]) == ["Basic", t] && Decode(t) == Some(c.user + ":" + c.pass)
  {
    var s := Fields(auth[0]);
    SplitInTwo(Decode(s[1]).value, "");
    assert "" + Decode(s[1]).value == Decode(s[1]).value;
    assert s == ["Basic", s[1]];
  }

  // -------------------------------------------------------------------------
  // Passwords

  const HASHES := {"plain", "md5", "sha1", "sha224", "sha256", "sha384", "sha512"}

  type Digest = string -> Bytes

  function LowerChar(c: char): char {
    if 'A' <= c <= 'Z' then (c as int + 32) as char else c
  }

  function TitleChar(c: char): char {
    if 'a' <= c <= 'z' then (c as int - 32) as char else c
  }

  /** strings.ToLower and strings.ToTitle on ASCII letters. */
  function ToLower(s: string): (r: string)
    ensures |r| == |s| && forall i :: 0 <= i < |s| ==> r[i] == LowerChar(s[i])
  {
    seq(|s|, i requires 0 <= i < |s| => LowerChar(s[i]))
  }

  function ToTitle(s: string): (r: string)
    ensures |r| == |s| && forall i :: 0 <= i < |s| ==> r[i] == TitleChar(s[i])
  {
    seq(|s|, i requires 0 <= i < |s| => TitleChar(s[i]))
  }

  /** strings.Index(p, ":"), or |p|. */
  function Index(p: string): (i: nat)
    ensures i <= |p| && (i < |p| ==> p[i] == ':') && ':' !in p[..i]
  {
    if p == "" || p[0] == ':' then 0
    else
      var i := 1 + Index(p[1..]);
      assert p[..i] == [p[0]] + p[1..][..i - 1];
      i
  }

  function SplitHash(p: string): (string, string) {
    var i := Index(p);
    if i + 1 >= |p| then ("", "") else (p[..i], p[i + 1..])
  }

  /** The hash behind a type is nil for plain text, and for a type that is not in the table. */
  predicate Hashed(kind: string) {
    kind in HASHES && kind != "plain"
  }

  /** base64(h.Sum(pass)): the password followed by the digest of nothing. */
  function Sum(digest: Digest, kind: string, pass: Bytes): string {
    Encode(pass + digest(kind))
  }

  type Table = map<string, string>

  function Entry(digest: Digest, pass: Bytes, hashtype: string): string {
    var kind := ToLower(hashtype);
    if Hashed(kind) then ToTitle(hashtype) + ":" + Sum(digest, kind, pass) else "PLAIN:" + pass
  }

  predicate Matches(digest: Digest, entry: string, pass: Bytes) {
    var (ht, stored) := SplitHash(entry);
    ht != "" &&
    if Hashed(ToLower(ht)) then Sum(digest, ToLower(ht), pass) == stored else stored == pass
  }

  predicate Validates(digest: Digest, users: Table, user: string, pass: Bytes) {
    user in users && Matches(digest, users[user], pass)
  }

  class Users {
    var users: Table
    const digest: Digest

    constructor (digest: Digest)
      ensures users == map[] && this.digest == digest
    {
      users := map[];
      this.digest := digest;
    }

    method SetPass(user: string, plainpass: Bytes, hashtype: string) returns (err: Option<Error>)
      modifies this
      ensures err == if user == "" then Some(InvName)
                     else if plainpass == "" then Some(BlankPass)
                     else if ToLower(hashtype) !in {"plain", "md5", "sha1", "sha224", "sha256", "sha384", "sha512"}
                          then Some(InvHash)
                     else None
      ensures users == if err.Some? then old(users) else old(users)[user := Entry(digest, plainpass, hashtype)]
      ensures err.None? ==> forall q: Bytes :: Validates(digest, users, user, q) <==> q == plainpass
      ensures forall other, q: Bytes :: other != user ==>
        (Validates(digest, users, other, q) <==> Validates(digest, old(users), other, q))
    {
      if user == "" {
        return Some(InvName);
      }
      if plainpass == "" {
        return Some(BlankPass);
      }
      var pass := "PLAIN:" + plainpass;
      var kind := ToLower(hashtype);
      if kind !in HASHES {
        return Some(InvHash);
      }
      if Hashed(kind) {
        pass := ToTitle(hashtype) + ":" + Sum(digest, kind, plainpass);
      }
      users := users[user := pass];
      err := None;
      forall q: Bytes ensures Matches(digest, pass, q) <==> q == plainpass {
        EntryMatches(digest, plainpass, hashtype, q);
      }
    }

    method SetRaw(user: string, pass: string) returns (err: Option<Error>)
      modifies this
      ensures err == if user == "" then Some(InvName) else if pass == "" then Some(BlankPass) else None
      ensures users == if err.Some? then old(users) else old(users)[user := pass]
    {
      if user == "" {
        return Some(InvName);
      }
      if pass == "" {
        return Some(BlankPass);
      }
      users := users[user := pass];
      err := None;
    }

    method Validate(user: string, plainpass: Bytes) returns (ok: bool)
      ensures ok <==> Validates(digest, users, user, plainpass)
    {
      if user !in users {
        return false;
      }
      var (ht, stored) := SplitHash(users[user]);
      if ht == "" {
        return false;
      }
      var kind := ToLower(ht);
      if !Hashed(kind) {
        return stored == plainpass;
      }
      return Sum(digest, kind, plainpass) == stored;
    }
  }

  lemma SplitHashAt(ht: string, stored: string)
    requires ColonFree(ht) && stored != ""
    ensures SplitHash(ht + ":" + stored) == (ht, stored)
  {
    var p := ht + ":" + stored;
    var i := Index(p);
    assert p[|ht|] == ':' && forall j :: 0 <= j < |ht| ==> p[j] == ht[j];
    assert forall j :: 0 <= j < i ==> p[..i][j] == p[j];
    assert i == |ht|;
    assert p[..i] == ht && p[i + 1..] == stored;
  }

  lemma LowerOfTitle(s: string)
    ensures ToLower(ToTitle(s)) == ToLower(s)
  {
  }

  /** No name of a hash has a colon, whatever the case of its letters. */
  lemma TitleIsColonFree(hashtype: string)
    requires ToLower(hashtype) in HASHES
    ensures ColonFree(ToTitle(hashtype)) && hashtype != ""
  {
    var kind := ToLower(hashtype);
    assert ':' !in kind;
    forall i | 0 <= i < |hashtype| ensures ToTitle(hashtype)[i] != ':' {
      assert kind[i] != ':';
    }
  }

  lemma HashedMatches(digest: Digest, pass: Bytes, hashtype: string, q: Bytes)
    requires pass != "" && ToLower(hashtype) in HASHES && Hashed(ToLower(hashtype))
    ensures Matches(digest, Entry(digest, pass, hashtype), q) <==> q == pass
  {
    var kind := ToLower(hashtype);
    TitleIsColonFree(hashtype);
    LowerOfTitle(hashtype);
    EncodeIsInjective(pass + digest(kind), q + digest(kind));
    SameSuffix(pass, q, digest(kind));
    EncodeAlphabet(pass + digest(kind));
    assert Sum(digest, kind, pass) != "";
    hide Encode, ColonFree, Hashed;
    SplitHashAt(ToTitle(hashtype), Sum(digest, kind, pass));
  }

  /** A stored password validates itself and nothing else, colons or not. */
  lemma EntryMatches(digest: Digest, pass: Bytes, hashtype: string, q: Bytes)
    requires pass != "" && ToLower(hashtype) in HASHES
    ensures Matches(digest, Entry(digest, pass, hashtype), q) <==> q == pass
  {
    if Hashed(ToLower(hashtype)) {
      HashedMatches(digest, pass, hashtype, q);
    } else {
      assert ToLower("PLAIN") == "plain";
      hide ToLower;
      assert "PLAIN" + ":" + pass == "PLAIN:" + pass;
      SplitHashAt("PLAIN", pass);
    }
  }

  lemma SameSuffix(a: string, b: string, s: string)
    ensures a + s == b + s <==> a == b
  {
    if a + s == b + s {
      assert |a| == |b|;
      assert a == (a + s)[..|a|] && b == (b + s)[..|b|];
    }
  }

  /** A raw entry of a type that is not in the table is compared as plain text. */
  lemma UnknownTypeIsPlain(digest: Digest, ht: string, stored: Bytes, q: Bytes)
    requires ColonFree(ht) && ht != "" && stored != "" && ToLower(ht) !in HASHES
    ensures Matches(digest, ht + ":" + stored, q) <==> q == stored
  {
    SplitHashAt(ht, stored);
  }

  // -------------------------------------------------------------------------
  // The handler

  datatype Verdict = Admitted(user: string) | Status(code: int)

  /** `header` is None when the request has no Authorization header. */
  function BasicAuth(digest: Digest, users: Table, header: Option<seq<string>>): Verdict {
    match header
    case None => Status(401)
    case Some(auth) =>
      match Basic(auth)
      case Refused(_) => Status(403)
      case Credentials(user, pass) => if Validates(digest, users, user, pass) then Admitted(user) else Status(403)
  }

  /** A user whose password was set is let in by the right header, and only by the right password. */
  lemma LoginExactly(digest: Digest, users: Table, u: Bytes, p: Bytes, hashtype: string, q: Bytes)
    requires p != "" && ToLower(hashtype) in HASHES
    requires u in users && users[u] == Entry(digest, p, hashtype)
    ensures BasicAuth(digest, users, Some([Header(u, q)])) == Admitted(u) <==>
      q == p && ColonFree(u) && ColonFree(p)
  {
    BasicExactly(u, q);
    EntryMatches(digest, p, hashtype, q);
  }

  /** A password with a colon can be stored, but no header at all lets its user in. */
  lemma ColonLocksOut(digest: Digest, users: Table, u: Bytes, p: Bytes, hashtype: string)
    requires p != "" && ToLower(hashtype) in HASHES
    requires u in users && users[u] == Entry(digest, p, hashtype)
    ensures (exists header :: BasicAuth(digest, users, header) == Admitted(u)) <==> ColonFree(u) && ColonFree(p)
  {
    LoginExactly(digest, users, u, p, hashtype, p);
    forall header | BasicAuth(digest, users, header) == Admitted(u) ensures ColonFree(u) && ColonFree(p) {
      BasicSound(header.value);
      EntryMatches(digest, p, hashtype, Basic(header.value).pass);
    }
  }

  // -------------------------------------------------------------------------
  // Refusals and formats

  /** An entry without a colon, or with nothing after its first one, or nothing before it, is nobody's password. */
  lemma BrokenEntryMatchesNobody(digest: Digest, entry: string, q: Bytes)
    requires ColonFree(entry) || (exists ht :: ColonFree(ht) && entry == ht + ":") || ":" <= entry
    ensures !Matches(digest, entry, q)
  {
    var i := Index(entry);
    assert forall j :: 0 <= j < i ==> entry[..i][j] == entry[j];
    if ht :| ColonFree(ht) && entry == ht + ":" {
      assert entry[|ht|] == ':' && forall j :: 0 <= j < |ht| ==> entry[j] == ht[j];
    } else if ":" <= entry {
      assert entry[0] == ':';
    }
  }

  /** What is stored: the type in capitals, a colon, and the password in the clear or under its hash. */
  lemma EntryFormat(digest: Digest, p: Bytes)
    ensures Entry(digest, p, "plain") == "PLAIN:" + p == Entry(digest, p, "Plain")
    ensures Entry(digest, p, "md5") == "MD5:" + Encode(p + digest("md5")) == Entry(digest, p, "Md5")
    ensures Entry(digest, p, "sha1") == "SHA1:" + Encode(p + digest("sha1"))
    ensures Entry(digest, p, "sha224") == "SHA224:" + Encode(p + digest("sha224"))
    ensures Entry(digest, p, "sha256") == "SHA256:" + Encode(p + digest("sha256"))
    ensures Entry(digest, p, "sha384") == "SHA384:" + Encode(p + digest("sha384"))
    ensures Entry(digest, p, "sha512") == "SHA512:" + Encode(p + digest("sha512"))
  {
    hide Encode;
    assert ToLower("plain") == "plain" == ToLower("Plain");
    assert ToLower("md5") == "md5" == ToLower("Md5") && ToTitle("md5") == "MD5" == ToTitle("Md5");
    assert ToLower("sha1") == "sha1" && ToTitle("sha1") == "SHA1";
    assert ToLower("sha224") == "sha224" && ToTitle("sha224") == "SHA224";
    assert ToLower("sha256") == "sha256" && ToTitle("sha256") == "SHA256";
    assert ToLower("sha384") == "sha384" && ToTitle("sha384") == "SHA384";
    assert ToLower("sha512") == "sha512" && ToTitle("sha512") == "SHA512";
    hide ToLower, ToTitle;
    assert "MD5:" == "MD5" + ":" && "SHA1:" == "SHA1" + ":" && "SHA224:" == "SHA224" + ":";
    assert "SHA256:" == "SHA256" + ":" && "SHA384:" == "SHA384" + ":" && "SHA512:" == "SHA512" + ":";
  }

  /** 401 asks for credentials where there is no header; a header that does not do is answered 403. */
  lemma StatusExactly(digest: Digest, users: Table, header: Option<seq<string>>)
    ensures BasicAuth(digest, users, header) == Status(401) <==> header.None?
    ensures BasicAuth(digest, users, header) == Status(403) <==>
      header.Some? && forall u :: BasicAuth(digest, users, header) != Admitted(u)
    ensures forall u :: BasicAuth(digest, users, header) == Admitted(u) ==>
      exists q: Bytes :: Basic(header.value) == Credentials(u, q) && Validates(digest, users, u, q)
  {
  }

  lemma TwoWords(a: string, b: string)
    requires a != "" && b != "" && NoSpace(a) && NoSpace(b)
    ensures Fields(a + " " + b) == [a, b] && Fields(a) == [a]
  {
    var rest := " " + b;
    assert a + " " + b == a + rest && rest[1..] == b && "" + a == a && "" + b == b;
    FieldsOfWord(a, rest, "");
    assert b + "" == b && a + "" == a;
    FieldsOfWord(b, "", "");
    FieldsOfWord(a, "", "");
  }

  /** The errors of the parser, on one word and on two, and without a value at all. */
  lemma RefusalsExactly(a: string, b: string)
    requires a != "" && b != "" && NoSpace(a) && NoSpace(b)
    ensures Basic([]) == Refused(InvalidAuthHeader)
    ensures Basic([a]) == Refused(InvalidAuthString)
    ensures a != "Basic" ==> Basic([a + " " + b]) == Refused(InvalidAuthScheme)
    ensures a == "Basic" ==> (Basic([a + " " + b]) == Refused(DecodeUsrPass) <==> Decode(b).None?)
    ensures a == "Basic" && Decode(b).Some? && ColonFree(Decode(b).value) ==>
      Basic([a + " " + b]) == Refused(InvalidUsrPassString)
  {
    TwoWords(a, b);
    if Decode(b).Some? {
      SplitWithoutColon(Decode(b).value, "");
    }
    hide Decode, FieldsFrom, SplitFrom;
  }

  /** Nobody who is not in the table gets in, and at first nobody is. */
  lemma StrangersAreRefused(digest: Digest, users: Table, u: string, q: Bytes, header: Option<seq<string>>)
    requires u !in users
    ensures !Validates(digest, users, u, q)
    ensures BasicAuth(digest, users, header) != Admitted(u)
  {
  }

  /** White space is a blank or one of the five characters from tab to carriage return; any number of it may lead. */
  lemma SpacesExactly(c: char, s: string)
    ensures IsSpace(c) <==> c == ' ' || c == '\t' || c == '\n' || c as int == 11 || c as int == 12 || c == '\r'
    ensures IsSpace(c) ==> Fields([c] + s) == Fields(s)
  {
    assert ([c] + s)[1..] == s;
  }
}
