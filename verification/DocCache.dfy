/**
 The HTTP document cache (middlewares/cache): documents and their freshness (docs.go),
 the storage (cache.go) and the handler that serves from it (handler.go).

 A file system is a map from paths to files, the header file of a document next to its
 body.  Eviction may take away any of them between two calls of the storage.  Times are
 nanoseconds.
 */
module DocCache {
  import opened Options

  type Bytes = seq<int>

  // -------------------------------------------------------------------------
  // Documents

  datatype Document =
    | Text(name: string, mtime: int, lang: string, encoding: string, mime: string, agent: string,
           extension: string, hash: string)
    | Image(name: string, mtime: int, lang: string, mime: string, agent: string, hash: string,
            width: string, height: string, extension: string)
  {
    /** `New`: the same metadata with the modification time of the cached copy. */
    function New(m: int): Document {
      this.(mtime := m)
    }

    predicate OutDate(cached: Document) {
      match this
      case Text(_, _, _, _, _, _, _, _) =>
        if !cached.Text? then true
        else if mtime > cached.mtime then true
        else if lang != cached.lang then true
        else if encoding != cached.encoding then true
        else if mime != cached.mime then true
        else if agent != cached.agent then true
        else hash != cached.hash
      case Image(_, _, _, _, _, _, _, _, _) =>
        if !cached.Image? then true
        else if mtime > cached.mtime then true
        else if lang != cached.lang then true
        else if mime != cached.mime then true
        else if hash != cached.hash then true
        else if width != cached.width then true
        else if height != cached.height then true
        else agent != cached.agent
    }

    /** What RootDirHash digests, field after field; the sizes of an image are their decimal digits. */
    function Fields(): seq<string> {
      match this
      case Text(_, _, _, _, _, _, _, _) => [encoding, lang, mime, agent, hash]
      case Image(_, _, _, _, _, _, _, _, _) => [lang, mime, width, height, agent, hash]
    }

    function HashInput(): string {
      Flat(Fields())
    }

    function Key(digest: string -> string): Key {
      At(digest(HashInput()), name)
    }
  }

  /** One field after the other, with nothing in between. */
  function Flat(fields: seq<string>): string {
    if fields == [] then "" else fields[0] + Flat(fields[1..])
  }

  /** Directory and file name of a cached document: the path of its body. */
  datatype Key = At(dir: string, name: string)

  /** The path of its header, in the same directory. */
  function HeaderOf(key: Key): Key {
    At(key.dir, key.name + ".header")
  }

  /** Against a copy of itself, freshness is a matter of time alone, and the key does not move. */
  lemma OutDateIsNewer(d: Document, m: int, digest: string -> string)
    ensures d.OutDate(d.New(m)) <==> d.mtime > m
    ensures d.New(m).Key(digest) == d.Key(digest)
  {
  }

  ghost predicate Injective(digest: string -> string) {
    forall s, t :: digest(s) == digest(t) ==> s == t
  }

  /** Two documents share a key if and only if they share the name and what is digested. */
  lemma SharedKeyExactly(a: Document, b: Document, digest: string -> string)
    requires Injective(digest)
    ensures a.Key(digest) == b.Key(digest) <==> a.name == b.name && a.HashInput() == b.HashInput()
  {
  }

  ghost predicate SameLengths(f: seq<string>, g: seq<string>) {
    |f| == |g| && forall i :: 0 <= i < |f| ==> |f[i]| == |g[i]|
  }

  lemma {:induction false} FlatExactly(f: seq<string>, g: seq<string>)
    requires SameLengths(f, g)
    ensures Flat(f) == Flat(g) <==> f == g
  {
    if f != [] {
      FlatExactly(f[1..], g[1..]);
      assert f == [f[0]] + f[1..] && g == [g[0]] + g[1..];
      if Flat(f) == Flat(g) {
        assert f[0] == Flat(f)[..|f[0]|] && g[0] == Flat(g)[..|f[0]|];
        assert Flat(f[1..]) == Flat(f)[|f[0]|..] && Flat(g[1..]) == Flat(g)[|f[0]|..];
      }
    }
  }

  /**
   Fields are digested without separators.  Between documents of one kind whose fields are
   equally long, a key is shared exactly by those of one name that differ in nothing that
   freshness looks at.
   */
  lemma KeysTellApart(a: Document, b: Document, digest: string -> string)
    requires Injective(digest) && a.Text? == b.Text? && SameLengths(a.Fields(), b.Fields())
    ensures a.Key(digest) == b.Key(digest) <==> a.name == b.name && !a.OutDate(b.New(a.mtime))
  {
    SharedKeyExactly(a, b, digest);
    FlatExactly(a.Fields(), b.Fields());
    SameFieldsExactly(a, b);
    hide Flat, Document.HashInput, Injective, Document.OutDate;
  }

  lemma SameFieldsExactly(a: Document, b: Document)
    requires a.Text? == b.Text?
    ensures a.Fields() == b.Fields() <==> !a.OutDate(b.New(a.mtime))
  {
    var f, g := a.Fields(), b.Fields();
    if f == g {
      assert f[0] == g[0] && f[1] == g[1] && f[2] == g[2] && f[3] == g[3] && f[4] == g[4];
      assert a.Image? ==> f[5] == g[5];
    }
  }

  lemma FlatTwo(x: string, y: string, rest: seq<string>)
    ensures Flat([x, y] + rest) == (x + y) + Flat(rest)
  {
    assert ([x, y] + rest)[1..] == [y] + rest;
    assert ([y] + rest)[1..] == rest;
    assert x + (y + Flat(rest)) == (x + y) + Flat(rest);
  }

  /** With other lengths it may be shared by different ones: a character moves to the field before. */
  lemma KeysCollide(name: string, mtime: int, lang: string, encoding: string, mime: string, agent: string,
                    extension: string, hash: string, c: char, digest: string -> string)
    ensures var a := Text(name, mtime, lang, encoding + [c], mime, agent, extension, hash);
            var b := Text(name, mtime, [c] + lang, encoding, mime, agent, extension, hash);
            a.OutDate(b) && a.Key(digest) == b.Key(digest)
  {
    var rest := [mime, agent, hash];
    FlatTwo(encoding + [c], lang, rest);
    FlatTwo(encoding, [c] + lang, rest);
    assert [encoding + [c], lang] + rest == [encoding + [c], lang, mime, agent, hash];
    assert [encoding, [c] + lang] + rest == [encoding, [c] + lang, mime, agent, hash];
    assert (encoding + [c]) + lang == encoding + ([c] + lang);
    assert |encoding + [c]| != |encoding|;
  }

  // -------------------------------------------------------------------------
  // Storage

  datatype File = File(bytes: Bytes, mtime: int)

  type Disk = map<Key, File>

  /** The files that eviction removes at one moment. */
  type Eviction = set<Key>

  /** Whether the JSON decoder finds headers at the start of these bytes. */
  type Decoder = Bytes -> bool

  /** What was encoded is found again, whatever an overwritten file has after it. */
  ghost predicate Readable(json: Decoder, head: Bytes) {
    forall tail :: json(head + tail)
  }

  /** Writing from the start of a file that is opened without truncation. */
  function Overlay(bytes: Bytes, stale: Bytes): Bytes {
    if |stale| <= |bytes| then bytes else bytes + stale[|bytes|..]
  }

  function Stale(d: Disk, path: Key): Bytes {
    if path in d then d[path].bytes else []
  }

  function Written(d: Disk, path: Key, bytes: Bytes, now: int): Disk {
    d[path := File(Overlay(bytes, Stale(d, path)), now)]
  }

  /** The body, then the headers. */
  function Stored(d: Disk, key: Key, body: Bytes, head: Bytes, now: int): Disk {
    Written(Written(d, key, body, now), HeaderOf(key), head, now)
  }

  class Storage {
    var disk: Disk
    const json: Decoder

    constructor (json: Decoder)
      ensures disk == map[] && this.json == json
    {
      this.json := json;
      disk := map[];
    }

    /** The walk of the cleanup goroutine, at whatever moment and on whatever files. */
    method Evict(e: Eviction)
      modifies this
      ensures disk == old(disk) - e
    {
      disk := disk - e;
    }

    /** OpenFile without O_TRUNC, and io.Copy into it. */
    method Write(path: Key, bytes: Bytes, now: int)
      modifies this
      ensures disk == Written(old(disk), path, bytes, now)
    {
      var f := if path in disk then disk[path].bytes else [];
      if |bytes| < |f| {
        f := bytes + f[|bytes|..];
      } else {
        f := bytes;
      }
      disk := disk[path := File(f, now)];
    }

    method Store(key: Key, body: Bytes, head: Bytes, now: int)
      modifies this
      ensures disk == Stored(old(disk), key, body, head, now)
    {
      Write(key, body, now);
      Write(HeaderOf(key), head, now);
    }

    /** Writes the code before it knows whether the body is still there. */
    method ReadTo(key: Key, w: ResponseWriter, code: int, meanwhile: Eviction) returns (ok: bool)
      modifies this, w
      ensures var found := HasHeader(old(disk), key, json);
              && disk == (if found then old(disk) - meanwhile else old(disk))
              && (ok <==> found && key in disk)
              && w.code == (if found && code != 0 then code else old(w.code))
              && w.body == (if ok then old(w.body) + disk[key].bytes else old(w.body))
              && w.xcache == old(w.xcache)
    {
      if HeaderOf(key) !in disk {
        return false;
      }
      if !json(disk[HeaderOf(key)].bytes) {
        return false;
      }
      if code != 0 {
        w.WriteHeader(code);
      }
      Evict(meanwhile);
      if key !in disk {
        return false;
      }
      w.Write(disk[key].bytes);
      return true;
    }

    method GetMTime(d: Document, key: Key) returns (cached: Option<Document>)
      ensures cached == if key in disk then Some(d.New(disk[key].mtime)) else None
    {
      if key !in disk {
        return None;
      }
      return Some(d.New(disk[key].mtime));
    }
  }

  predicate HasHeader(d: Disk, key: Key, json: Decoder) {
    HeaderOf(key) in d && json(d[HeaderOf(key)].bytes)
  }

  // -------------------------------------------------------------------------
  // The handler

  datatype XCache = True | False | Since

  /** responsewriter.ResponseWriter with the X-Cache header: the last code wins, bodies accumulate. */
  class ResponseWriter {
    var code: int
    var body: Bytes
    var xcache: seq<XCache>

    constructor ()
      ensures code == 0 && body == [] && xcache == []
    {
      code := 0;
      body := [];
      xcache := [];
    }

    method WriteHeader(code: int)
      modifies this`code
      ensures this.code == code
    {
      this.code := code;
    }

    method Write(bytes: Bytes)
      modifies this`body
      ensures body == old(body) + bytes
    {
      body := body + bytes;
    }

    method AddXCache(x: XCache)
      modifies this`xcache
      ensures xcache == old(xcache) + [x]
    {
      xcache := xcache + [x];
    }
  }

  /** What the wrapped handler writes, and its headers as JSON. */
  datatype Page = Page(code: int, body: Bytes, head: Bytes) {
    predicate Storable() {
      body != [] && (code == 0 || 200 <= code < 300)
    }
  }

  datatype Answer = Answer(code: int, body: Bytes, xcache: seq<XCache>)

  /** What happens around one request: evictions at each gap, and the time a store would write. */
  datatype Fate = Fate(first: Eviction, beforeRead: Eviction, inRead: Eviction, beforeStore: Eviction, now: int)

  const SECOND := 1_000_000_000

  // The JSON of an error.
  const ERROR_BODY: Bytes := [123, 125]

  /** How the cache answers, with the disk at that moment; on a miss the handler has to run. */
  datatype Look = Hit(disk: Disk) | NotModified(disk: Disk) | Miss(disk: Disk, xcache: seq<XCache>)

  function Looked(d: Disk, doc: Document, key: Key, since: Option<int>, json: Decoder, fate: Fate): (r: Look)
    ensures r.Hit? ==> key in r.disk
  {
    var d1 := d - fate.first;
    if key !in d1 then Miss(d1, [])
    else if since.Some? && doc.mtime < since.value + SECOND then NotModified(d1)
    else if doc.OutDate(doc.New(d1[key].mtime)) then Miss(d1, [])
    else
      var d2 := d1 - fate.beforeRead;
      if !HasHeader(d2, key, json) then Miss(d2, [True])
      else
        var d3 := d2 - fate.inRead;
        if key !in d3 then Miss(d3, [True]) else Hit(d3)
  }

  function Executed(d: Disk, key: Key, page: Page, fate: Fate, xcache: seq<XCache>): (Disk, Answer) {
    if page.body == [] then (d, Answer(500, ERROR_BODY, xcache))
    else
      var e := d - fate.beforeStore;
      (if page.Storable() then Stored(e, key, page.body, page.head, fate.now) else e,
       Answer(if page.code == 0 then 200 else page.code, page.body, xcache + [False]))
  }

  function Handled(d: Disk, doc: Document, key: Key, since: Option<int>, page: Page, json: Decoder, fate: Fate):
    (Disk, Answer)
  {
    match Looked(d, doc, key, since, json, fate)
    case Hit(disk) => (disk, Answer(200, disk[key].bytes, [True]))
    case NotModified(disk) => (disk, Answer(304, [], [Since]))
    case Miss(disk, xcache) => Executed(disk, key, page, fate, xcache)
  }

  method Exec(cs: Storage, w: ResponseWriter, key: Key, page: Page, fate: Fate)
    requires w.body == []
    modifies cs, w
    ensures (cs.disk, Answer(w.code, w.body, w.xcache)) == Executed(old(cs.disk), key, page, fate, old(w.xcache))
  {
    if |page.body| == 0 {
      w.WriteHeader(500);
      w.Write(ERROR_BODY);
      assert [] + ERROR_BODY == ERROR_BODY;
      return;
    }
    var code := page.code;
    cs.Evict(fate.beforeStore);
    if code == 0 || (code >= 200 && code < 300) {
      cs.Store(key, page.body, page.head, fate.now);
    }
    if code == 0 {
      code := 200;
    }
    w.AddXCache(False);
    w.WriteHeader(code);
    w.Write(page.body);
    assert [] + page.body == page.body;
  }

  /** `meta` is None when the metadata of the document cannot be had. */
  method Cache(cs: Storage, w: ResponseWriter, meta: Option<Document>, digest: string -> string,
               since: Option<int>, page: Page, fate: Fate)
    requires w.code == 0 && w.body == [] && w.xcache == []
    modifies cs, w
    ensures meta.None? ==> cs.disk == old(cs.disk) && w.code == 500 && w.body == ERROR_BODY && w.xcache == []
    ensures meta.Some? ==>
      (cs.disk, Answer(w.code, w.body, w.xcache)) ==
      Handled(old(cs.disk), meta.value, meta.value.Key(digest), since, page, cs.json, fate)
  {
    if meta.None? {
      w.WriteHeader(500);
      w.Write(ERROR_BODY);
      return;
    }
    var m := meta.value;
    var key := m.Key(digest);
    cs.Evict(fate.first);
    var cached := cs.GetMTime(m, key);
    if cached.None? {
      Exec(cs, w, key, page, fate);
      return;
    }
    if since.Some? && m.mtime < since.value + SECOND {
      w.AddXCache(Since);
      assert [] + [Since] == [Since];
      w.WriteHeader(304);
      return;
    }
    if m.OutDate(cached.value) {
      Exec(cs, w, key, page, fate);
      return;
    }
    w.AddXCache(True);
    assert w.xcache == [True];
    cs.Evict(fate.beforeRead);
    var ok := cs.ReadTo(key, w, 200, fate.inRead);
    if !ok {
      Exec(cs, w, key, page, fate);
      return;
    }
    assert w.body == cs.disk[key].bytes;
  }

  // -------------------------------------------------------------------------
  // The cache against the handler it speeds up

  /** The page of a document depends on its key and on its modification time. */
  datatype Site = Site(pages: (Key, int) -> Page, json: Decoder)

  /** The disk, the current document under each key, and the time of the last change or store. */
  datatype World = World(disk: Disk, docs: map<Key, Document>, now: int)

  datatype Event =
    | Change(key: Key, mtime: int)
    | Request(key: Key, since: Option<int>, fate: Fate)

  function CurrentPage(w: World, site: Site, key: Key): Page
    requires key in w.docs
  {
    site.pages(key, w.docs[key].mtime)
  }

  /** Each change and each store has a time of its own, later than all before it. */
  predicate Timely(w: World, ev: Event) {
    ev.key in w.docs &&
    match ev
    case Change(_, mtime) => mtime > w.now
    case Request(_, _, fate) => fate.now > w.now
  }

  function LookAt(w: World, site: Site, ev: Event): Look
    requires ev.Request? && ev.key in w.docs
  {
    Looked(w.disk, w.docs[ev.key], ev.key, ev.since, site.json, ev.fate)
  }

  function Reply(w: World, site: Site, ev: Event): (Disk, Answer)
    requires ev.Request? && ev.key in w.docs
  {
    Handled(w.disk, w.docs[ev.key], ev.key, ev.since, CurrentPage(w, site, ev.key), site.json, ev.fate)
  }

  function Next(w: World, site: Site, ev: Event): World
    requires Timely(w, ev)
  {
    match ev
    case Change(key, mtime) => w.(docs := w.docs[key := w.docs[key].New(mtime)], now := mtime)
    case Request(_, _, fate) => w.(disk := Reply(w, site, ev).0, now := fate.now)
  }

  /** Every file that counts as a fresh copy holds the page of the document as it is now. */
  ghost predicate Faithful(w: World, site: Site) {
    && (forall k :: k in w.docs ==> w.docs[k].mtime <= w.now)
    && (forall k :: k in w.disk ==> w.disk[k].mtime <= w.now)
    && (forall k :: k in w.docs && k in w.disk && w.disk[k].mtime >= w.docs[k].mtime ==>
          w.disk[k].bytes == CurrentPage(w, site, k).body)
  }

  /** Overwriting without truncation does what it is for exactly when nothing longer was there. */
  lemma OverlayExactly(bytes: Bytes, stale: Bytes)
    ensures Overlay(bytes, stale) == bytes <==> |stale| <= |bytes|
  {
  }

  /**
   The body of an answer: that of the page, unless the client has the document already,
   not modified since, or there is no body.  A hit says 200 whatever the code of the page was.
   */
  ghost predicate Transparent(w: World, site: Site, ev: Event)
    requires ev.Request? && ev.key in w.docs
  {
    var page, a := CurrentPage(w, site, ev.key), Reply(w, site, ev).1;
    (a == Answer(304, [], [Since]) && ev.since.Some? && w.docs[ev.key].mtime < ev.since.value + SECOND)
    || (page.body == [] && a.code == 500)
    || (a.body == page.body && a.code == if a.xcache == [True] || page.code == 0 then 200 else page.code)
  }

  lemma EvictionKeepsFaithful(w: World, site: Site, e: Eviction, now: int)
    requires Faithful(w, site) && now >= w.now
    ensures Faithful(World(w.disk - e, w.docs, now), site)
  {
  }

  /** What a handler that ran again is marked with. */
  lemma MarksDiffer()
    ensures [False] != [True] && [True] + [False] != [True] && [] + [False] == [False]
  {
    assert [False][0] == False && [True][0] == True;
    assert |[True] + [False]| == 2;
  }

  /** The disk of a look is what evictions left, and a hit is a fresh copy. */
  lemma LookMeaning(w: World, site: Site, ev: Event)
    requires Faithful(w, site) && ev.Request? && Timely(w, ev)
    ensures Faithful(World(LookAt(w, site, ev).disk, w.docs, ev.fate.now), site)
    ensures LookAt(w, site, ev).Hit? ==> LookAt(w, site, ev).disk[ev.key].bytes == CurrentPage(w, site, ev.key).body
    ensures LookAt(w, site, ev).NotModified? ==> ev.since.Some? && w.docs[ev.key].mtime < ev.since.value + SECOND
    ensures LookAt(w, site, ev).Miss? ==> LookAt(w, site, ev).xcache in {[], [True]}
  {
    var fate := ev.fate;
    if ev.key in w.disk {
      OutDateIsNewer(w.docs[ev.key], w.disk[ev.key].mtime, s => s);
    }
    EvictionKeepsFaithful(w, site, fate.first, fate.now);
    EvictionKeepsFaithful(w, site, fate.first + fate.beforeRead, fate.now);
    EvictionKeepsFaithful(w, site, fate.first + fate.beforeRead + fate.inRead, fate.now);
    assert w.disk - (fate.first + fate.beforeRead) == w.disk - fate.first - fate.beforeRead;
    assert w.disk - (fate.first + fate.beforeRead + fate.inRead)
        == w.disk - fate.first - fate.beforeRead - fate.inRead;
  }

  /** Any request, with evictions in every gap. */
  lemma RequestIsTransparent(w: World, site: Site, ev: Event)
    requires Faithful(w, site) && ev.Request? && Timely(w, ev)
    ensures Transparent(w, site, ev)
  {
    LookMeaning(w, site, ev);
    MarksDiffer();
    hide Faithful, Looked;
  }

  // -------------------------------------------------------------------------
  // What a store does to the copies

  /** A page that would be stored over a longer one. */
  predicate Shrinks(w: World, site: Site, key: Key)
    requires key in w.docs
  {
    var page := CurrentPage(w, site, key);
    page.Storable() && key in w.disk && |w.disk[key].bytes| > |page.body|
  }

  /** The request will find its copy out of date and run the handler again. */
  predicate Refreshes(w: World, key: Key, since: Option<int>)
    requires key in w.docs && key in w.disk
  {
    w.docs[key].mtime > w.disk[key].mtime && !(since.Some? && w.docs[key].mtime < since.value + SECOND)
  }

  /** A shorter page goes over an old copy that is out of date and that eviction spares until then. */
  predicate Spoils(w: World, site: Site, ev: Event)
    requires ev.Request? && ev.key in w.docs
  {
    && Shrinks(w, site, ev.key) && Refreshes(w, ev.key, ev.since)
    && ev.key !in ev.fate.first && ev.key !in ev.fate.beforeStore
  }

  /**
   A store writes its headers into the file of another document, the one with this name,
   and they are not what that document begins with.
   */
  predicate Tramples(w: World, site: Site, ev: Event)
    requires ev.Request? && ev.key in w.docs
  {
    var look, page, other := LookAt(w, site, ev), CurrentPage(w, site, ev.key), HeaderOf(ev.key);
    && look.Miss? && page.Storable() && other in w.docs
    && Overlay(page.head, Stale(look.disk - ev.fate.beforeStore, other)) != CurrentPage(w, site, other).body
  }

  predicate Harms(w: World, site: Site, ev: Event)
    requires ev.Request? && ev.key in w.docs
  {
    Spoils(w, site, ev) || Tramples(w, site, ev)
  }

  lemma StoredFaithfulExactly(w: World, site: Site, key: Key)
    requires Faithful(w, site) && key in w.docs
    ensures var page, other := CurrentPage(w, site, key), HeaderOf(key);
            Faithful(w.(disk := Stored(w.disk, key, page.body, page.head, w.now)), site) <==>
              && |Stale(w.disk, key)| <= |page.body|
              && (other in w.docs ==> Overlay(page.head, Stale(w.disk, other)) == CurrentPage(w, site, other).body)
  {
    var page, other := CurrentPage(w, site, key), HeaderOf(key);
    assert |other.name| != |key.name|;
    OverlayExactly(page.body, Stale(w.disk, key));
    var next := w.(disk := Stored(w.disk, key, page.body, page.head, w.now));
    assert next.disk[key] == File(Overlay(page.body, Stale(w.disk, key)), w.now);
    assert next.disk[other] == File(Overlay(page.head, Stale(w.disk, other)), w.now);
    assert forall k :: k in next.disk && k != key && k != other ==> k in w.disk && next.disk[k] == w.disk[k];
    hide Overlay, Stored, Stale;
    assert CurrentPage(next, site, key) == page;
  }

  /** Before a store, something longer is in the way exactly if the request spoils its copy. */
  lemma SpoilsExactly(w: World, site: Site, ev: Event)
    requires Faithful(w, site) && ev.Request? && Timely(w, ev) && CurrentPage(w, site, ev.key).Storable()
    ensures var look, page := LookAt(w, site, ev), CurrentPage(w, site, ev.key);
            Spoils(w, site, ev) <==>
              look.Miss? && |Stale(look.disk - ev.fate.beforeStore, ev.key)| > |page.body|
  {
    if ev.key in w.disk {
      OutDateIsNewer(w.docs[ev.key], w.disk[ev.key].mtime, s => s);
    }
  }

  /**
   Whatever is evicted around it, a request leaves the cache faithful if and only if it
   neither puts a shorter page over an old copy nor headers over another document.
   */
  lemma FaithfulExactly(w: World, site: Site, ev: Event)
    requires Faithful(w, site) && ev.Request? && Timely(w, ev)
    ensures Faithful(Next(w, site, ev), site) <==> !Harms(w, site, ev)
  {
    var look, page, fate := LookAt(w, site, ev), CurrentPage(w, site, ev.key), ev.fate;
    LookMeaning(w, site, ev);
    var v := World(look.disk, w.docs, fate.now);
    EvictionKeepsFaithful(v, site, fate.beforeStore, fate.now);
    if page.Storable() {
      SpoilsExactly(w, site, ev);
      StoredFaithfulExactly(v.(disk := v.disk - fate.beforeStore), site, ev.key);
    }
    hide Faithful, Looked, Stored, Overlay, Stale, Refreshes;
  }

  /** A change keeps the cache faithful in any case. */
  lemma NextKeepsFaithful(w: World, site: Site, ev: Event)
    requires Faithful(w, site) && Timely(w, ev)
    ensures Faithful(Next(w, site, ev), site) <==> !(ev.Request? && Harms(w, site, ev))
  {
    if ev.Request? {
      FaithfulExactly(w, site, ev);
      hide Faithful, Harms;
    }
  }

  // -------------------------------------------------------------------------
  // Runs

  ghost predicate TimelyRun(w: World, site: Site, events: seq<Event>)
    decreases |events|
  {
    events == [] || (Timely(w, events[0]) && TimelyRun(Next(w, site, events[0]), site, events[1..]))
  }

  /** No request of the run harms a copy. */
  ghost predicate GoodRun(w: World, site: Site, events: seq<Event>)
    requires TimelyRun(w, site, events)
    decreases |events|
  {
    events == [] ||
    (!(events[0].Request? && Harms(w, site, events[0])) && GoodRun(Next(w, site, events[0]), site, events[1..]))
  }

  ghost predicate AlwaysFaithful(w: World, site: Site, events: seq<Event>)
    requires TimelyRun(w, site, events)
    decreases |events|
  {
    Faithful(w, site) && (events == [] || AlwaysFaithful(Next(w, site, events[0]), site, events[1..]))
  }

  ghost predicate TransparentRun(w: World, site: Site, events: seq<Event>)
    requires TimelyRun(w, site, events)
    decreases |events|
  {
    events == [] ||
    ((events[0].Request? ==> Transparent(w, site, events[0]))
     && TransparentRun(Next(w, site, events[0]), site, events[1..]))
  }

  /**
   Transparency: over any run of changes and requests, with evictions anywhere, the cache
   stays faithful if and only if no request harms a copy; and then every answer carries
   the page of its document as it is at that moment.
   */
  lemma {:induction false} CacheIsTransparent(w: World, site: Site, events: seq<Event>)
    requires Faithful(w, site) && TimelyRun(w, site, events)
    ensures AlwaysFaithful(w, site, events) <==> GoodRun(w, site, events)
    ensures GoodRun(w, site, events) ==> TransparentRun(w, site, events)
    decreases |events|
  {
    hide Faithful, Harms, Transparent, Next, Timely;
    if events != [] {
      if events[0].Request? {
        RequestIsTransparent(w, site, events[0]);
      }
      NextKeepsFaithful(w, site, events[0]);
      if Faithful(Next(w, site, events[0]), site) {
        CacheIsTransparent(Next(w, site, events[0]), site, events[1..]);
      } else if events[1..] != [] {
        assert !AlwaysFaithful(Next(w, site, events[0]), site, events[1..]);
      }
    }
  }

  lemma EmptyCacheIsFaithful(docs: map<Key, Document>, now: int, site: Site)
    requires forall k :: k in docs ==> docs[k].mtime <= now
    ensures Faithful(World(map[], docs, now), site)
  {
  }

  /** No document has the name of another one's header file. */
  ghost predicate Apart(keys: set<Key>) {
    forall k :: k in keys ==> HeaderOf(k) !in keys
  }

  /** No request of the run puts a shorter page over an old copy. */
  ghost predicate SpoillessRun(w: World, site: Site, events: seq<Event>)
    requires TimelyRun(w, site, events)
    decreases |events|
  {
    events == [] ||
    (!(events[0].Request? && Spoils(w, site, events[0])) && SpoillessRun(Next(w, site, events[0]), site, events[1..]))
  }

  /** With such names, the length of the pages is all that matters. */
  lemma {:induction false} ApartRunExactly(w: World, site: Site, events: seq<Event>)
    requires Faithful(w, site) && TimelyRun(w, site, events) && Apart(w.docs.Keys)
    ensures GoodRun(w, site, events) <==> SpoillessRun(w, site, events)
    ensures AlwaysFaithful(w, site, events) <==> SpoillessRun(w, site, events)
    decreases |events|
  {
    CacheIsTransparent(w, site, events);
    if events != [] {
      var next := Next(w, site, events[0]);
      assert next.docs.Keys == w.docs.Keys;
      NextKeepsFaithful(w, site, events[0]);
      hide Faithful, Spoils, Next, Timely;
      if Faithful(next, site) {
        ApartRunExactly(next, site, events[1..]);
      }
    }
  }

  // -------------------------------------------------------------------------
  // Which answers, and which pages are kept

  /** The looks at the cache: when the client keeps its copy, and when it is given that of the cache. */
  lemma AnswersExactly(w: World, site: Site, ev: Event)
    requires ev.Request? && ev.key in w.docs
    ensures var key, doc, fate, answer := ev.key, w.docs[ev.key], ev.fate, Reply(w, site, ev).1;
            var header := At(key.dir, key.name + ".header");
            var found := key in w.disk && key !in fate.first;
            var kept := ev.since.Some? && doc.mtime - ev.since.value < 1_000_000_000;
            && (answer == Answer(304, [], [Since]) <==> found && kept)
            && (answer.xcache == [True] && answer.code == 200 <==>
                  && found && !kept && doc.mtime <= w.disk[key].mtime
                  && header in w.disk && header !in fate.first + fate.beforeRead && site.json(w.disk[header].bytes)
                  && key !in fate.beforeRead + fate.inRead)
            && (answer.xcache == [True] && answer.code == 200 ==> answer.body == w.disk[key].bytes)
  {
    if ev.key in w.disk {
      OutDateIsNewer(w.docs[ev.key], w.disk[ev.key].mtime, s => s);
    }
    MarksDiffer();
    hide Document.OutDate, Overlay, Stored;
  }

  /** An answer that is no success leaves nothing behind: all files were there before. */
  lemma OnlySuccessIsKept(w: World, site: Site, ev: Event)
    requires ev.Request? && ev.key in w.docs
    requires var code := CurrentPage(w, site, ev.key).code; code != 0 && !(200 <= code < 300)
    ensures forall k :: k in Reply(w, site, ev).0 ==> k in w.disk && Reply(w, site, ev).0[k] == w.disk[k]
  {
  }

  /** And one that is a success is kept, body and headers, and is what the next client gets. */
  lemma SuccessIsKept(w: World, site: Site, key: Key, first: int, second: int)
    requires key in w.docs && key !in w.disk && w.docs[key].mtime <= w.now < first < second
    requires var page := CurrentPage(w, site, key); page.body != [] && (page.code == 0 || 200 <= page.code < 300)
    requires Readable(site.json, CurrentPage(w, site, key).head)
    ensures var page, header := CurrentPage(w, site, key), At(key.dir, key.name + ".header");
            var once := Request(key, None, Quiet(first));
            var next := Next(w, site, once);
            && Reply(w, site, once).1 == Answer(if page.code == 0 then 200 else page.code, page.body, [False])
            && key in next.disk && next.disk[key] == File(page.body, first)
            && header in next.disk && page.head <= next.disk[header].bytes
            && Reply(next, site, Request(key, None, Quiet(second))).1 == Answer(200, page.body, [True])
  {
    var page := CurrentPage(w, site, key);
    assert w.disk - {} == w.disk;
    MarksDiffer();
    var stored := Stored(w.disk, key, page.body, page.head, first);
    assert |HeaderOf(key).name| != |key.name|;
    assert stored[key] == File(page.body, first) && stored - {} == stored;
    OverlayReadable(site.json, page.head, Stale(w.disk, HeaderOf(key)));
    OutDateIsNewer(w.docs[key], first, s => s);
  }

  /** What is fresh on the disk is the page of a success. */
  ghost predicate Successes(w: World, site: Site) {
    && (forall k :: k in w.disk ==> w.disk[k].mtime <= w.now)
    && (forall k :: k in w.docs && k in w.disk && w.disk[k].mtime >= w.docs[k].mtime ==>
          var code := CurrentPage(w, site, k).code; code == 0 || 200 <= code < 300)
  }

  lemma NextKeepsSuccesses(w: World, site: Site, ev: Event)
    requires Successes(w, site) && Timely(w, ev) && Apart(w.docs.Keys)
    ensures Successes(Next(w, site, ev), site)
  {
    if ev.Request? {
      DiskAfter(w, site, ev);
      assert HeaderOf(ev.key) !in w.docs;
      hide Reply;
    }
  }

  /** A file is as it was before, or it was written for a page that is a success. */
  lemma DiskAfter(w: World, site: Site, ev: Event)
    requires ev.Request? && ev.key in w.docs
    ensures var d, code := Reply(w, site, ev).0, CurrentPage(w, site, ev.key).code;
            forall k :: k in d ==>
              || (k in w.disk && d[k] == w.disk[k])
              || (k in {ev.key, HeaderOf(ev.key)} && d[k].mtime == ev.fate.now && (code == 0 || 200 <= code < 300))
  {
    hide Document.OutDate, Overlay, Stale, HasHeader;
  }

  /** Every answer from the cache is for a page that is a success. */
  ghost predicate HitsSucceed(w: World, site: Site, events: seq<Event>)
    requires TimelyRun(w, site, events)
    decreases |events|
  {
    events == [] ||
    ((events[0].Request? && Reply(w, site, events[0]).1.xcache == [True] && Reply(w, site, events[0]).1.code == 200 ==>
        var code := CurrentPage(w, site, events[0].key).code; code == 0 || 200 <= code < 300)
     && HitsSucceed(Next(w, site, events[0]), site, events[1..]))
  }

  lemma {:induction false} HitsAreSuccesses(w: World, site: Site, events: seq<Event>)
    requires Successes(w, site) && TimelyRun(w, site, events) && Apart(w.docs.Keys)
    ensures HitsSucceed(w, site, events)
    decreases |events|
  {
    if events != [] {
      if events[0].Request? {
        AnswersExactly(w, site, events[0]);
      }
      NextKeepsSuccesses(w, site, events[0]);
      assert Next(w, site, events[0]).docs.Keys == w.docs.Keys;
      hide Next, Reply, Apart;
      HitsAreSuccesses(Next(w, site, events[0]), site, events[1..]);
    }
  }

  /** Every run from an empty cache, on documents whose names are apart. */
  lemma HitsFromEmptyAreSuccesses(docs: map<Key, Document>, now: int, site: Site, events: seq<Event>)
    requires TimelyRun(World(map[], docs, now), site, events)
    requires forall k :: k in docs ==> At(k.dir, k.name + ".header") !in docs
    ensures HitsSucceed(World(map[], docs, now), site, events)
  {
    assert forall k :: HeaderOf(k) == At(k.dir, k.name + ".header");
    HitsAreSuccesses(World(map[], docs, now), site, events);
  }

  // -------------------------------------------------------------------------
  // When a page shrinks, when names are not apart, and when a key is shared

  /** No eviction around a request. */
  function Quiet(now: int): Fate {
    Fate({}, {}, {}, {}, now)
  }

  lemma OverlayReadable(json: Decoder, head: Bytes, stale: Bytes)
    requires Readable(json, head)
    ensures json(Overlay(head, stale))
  {
    assert head == head + [];
  }

  /** After a shorter page went over an old copy, the next hit carries the tail of the old page. */
  lemma HitAfterShrinking(w: World, site: Site, key: Key, now: int)
    requires Faithful(w, site) && key in w.docs && now > w.now && Shrinks(w, site, key)
    requires Refreshes(w, key, None) && Readable(site.json, CurrentPage(w, site, key).head)
    ensures var next := Next(w, site, Request(key, None, Quiet(now)));
            var page := CurrentPage(w, site, key);
            Reply(next, site, Request(key, None, Quiet(now))).1
              == Answer(200, page.body + w.disk[key].bytes[|page.body|..], [True])
  {
    var page := CurrentPage(w, site, key);
    assert w.disk - {} == w.disk;
    OutDateIsNewer(w.docs[key], w.disk[key].mtime, s => s);
    StoredThenHit(w.disk, w.docs[key], key, page, now, site.json);
  }

  /** What was just stored is what the next request reads, without evictions. */
  lemma StoredThenHit(d: Disk, doc: Document, key: Key, page: Page, now: int, json: Decoder)
    requires doc.mtime <= now && Readable(json, page.head)
    ensures var stored := Stored(d, key, page.body, page.head, now);
            Looked(stored, doc, key, None, json, Quiet(now)) == Hit(stored)
            && stored[key].bytes == Overlay(page.body, Stale(d, key))
  {
    var stored := Stored(d, key, page.body, page.head, now);
    assert |HeaderOf(key).name| != |key.name|;
    assert stored - {} == stored;
    OverlayReadable(json, page.head, Stale(d, HeaderOf(key)));
    OutDateIsNewer(doc, now, s => s);
  }

  lemma OverlayLeaves(bytes: Bytes, stale: Bytes)
    ensures Overlay(bytes, stale) == stale <==> bytes <= stale
  {
  }

  /** Two documents whose names are not apart, requested in turns: the one named as a header file first. */
  function Clash(key: Key, now: int): seq<Event> {
    [Request(HeaderOf(key), None, Quiet(now + 1)), Request(key, None, Quiet(now + 2)),
     Request(HeaderOf(key), None, Quiet(now + 3))]
  }

  lemma ClashSteps(docs: map<Key, Document>, now: int, site: Site, key: Key)
    requires key in docs && HeaderOf(key) in docs && forall k :: k in docs ==> docs[k].mtime <= now
    requires site.pages(key, docs[key].mtime).Storable()
    requires site.pages(HeaderOf(key), docs[HeaderOf(key)].mtime).Storable()
    requires Readable(site.json, site.pages(HeaderOf(key), docs[HeaderOf(key)].mtime).head)
    ensures var w, ev, other := World(map[], docs, now), Clash(key, now), HeaderOf(key);
            var body, head := site.pages(other, docs[other].mtime).body, site.pages(key, docs[key].mtime).head;
            var w1 := Next(w, site, ev[0]);
            var w2 := Next(w1, site, ev[1]);
            && LookAt(w, site, ev[0]).Miss? && LookAt(w1, site, ev[1]).Miss?
            && other in w.docs && other !in w.disk && key in w1.docs && key !in w1.disk
            && Timely(w1, ev[1]) && Timely(w2, ev[2]) && w2.docs == docs
            && other in w2.disk && w2.disk[other] == File(Overlay(head, body), now + 2)
            && Reply(w2, site, ev[2]) == (w2.disk, Answer(200, Overlay(head, body), [True]))
  {
    var w, ev, other := World(map[], docs, now), Clash(key, now), HeaderOf(key);
    var page, own := site.pages(other, docs[other].mtime), site.pages(key, docs[key].mtime);
    var third := HeaderOf(other);
    assert |third.name| != |other.name| && |other.name| != |key.name| && |third.name| != |key.name|;
    var w1 := Next(w, site, ev[0]);
    assert w.disk - {} == w.disk;
    assert w1.disk == Stored(map[], other, page.body, page.head, now + 1);
    assert w1.disk[other].bytes == page.body && w1.disk[third].bytes == page.head && w1.disk - {} == w1.disk;
    var w2 := Next(w1, site, ev[1]);
    assert w2.disk == Stored(w1.disk, key, own.body, own.head, now + 2) && w2.disk - {} == w2.disk;
    assert w2.disk[other].bytes == Overlay(own.head, page.body) && w2.disk[third] == w1.disk[third];
    OverlayReadable(site.json, page.head, []);
    OutDateIsNewer(docs[other], now + 2, s => s);
  }

  /**
   So the run is timely and no page shrinks on it, and yet the last answer is a hit with
   the headers of one document on top of the page of the other.  It carries the page only
   if the page happens to begin with just these headers.
   */
  lemma NamesClash(docs: map<Key, Document>, now: int, site: Site, key: Key)
    requires key in docs && HeaderOf(key) in docs && forall k :: k in docs ==> docs[k].mtime <= now
    requires site.pages(key, docs[key].mtime).Storable()
    requires site.pages(HeaderOf(key), docs[HeaderOf(key)].mtime).Storable()
    requires Readable(site.json, site.pages(HeaderOf(key), docs[HeaderOf(key)].mtime).head)
    ensures var w, events, other := World(map[], docs, now), Clash(key, now), HeaderOf(key);
            var body, head := site.pages(other, docs[other].mtime).body, site.pages(key, docs[key].mtime).head;
            && Faithful(w, site) && TimelyRun(w, site, events) && SpoillessRun(w, site, events)
            && (TransparentRun(w, site, events) <==> head <= body)
            && (!(head <= body) ==> !AlwaysFaithful(w, site, events))
  {
    var w, ev, other := World(map[], docs, now), Clash(key, now), HeaderOf(key);
    var body, head := site.pages(other, docs[other].mtime).body, site.pages(key, docs[key].mtime).head;
    ClashSteps(docs, now, site, key);
    OverlayLeaves(head, body);
    EmptyCacheIsFaithful(docs, now, site);
    var w1 := Next(w, site, ev[0]);
    var w2 := Next(w1, site, ev[1]);
    MissIsTransparent(w, site, ev[0]);
    MissIsTransparent(w1, site, ev[1]);
    assert Transparent(w2, site, ev[2]) <==> head <= body;
    assert !Spoils(w, site, ev[0]) && !Spoils(w1, site, ev[1]) && !Spoils(w2, site, ev[2]);
    hide Looked, Faithful, Overlay, Transparent, Spoils, Next, Timely;
    ThreeEvents(w, site, ev[0], ev[1], ev[2]);
    CacheIsTransparent(w, site, ev);
  }

  /**
   So a set of documents can be cached safely, whatever its pages, as long as none of them
   shrinks, if and only if their names are apart.
   */
  lemma ApartExactly(docs: map<Key, Document>, now: int)
    requires forall k :: k in docs ==> docs[k].mtime <= now
    ensures (forall k :: k in docs ==> At(k.dir, k.name + ".header") !in docs) <==>
      forall site, events | TimelyRun(World(map[], docs, now), site, events) ::
        SpoillessRun(World(map[], docs, now), site, events) ==> AlwaysFaithful(World(map[], docs, now), site, events)
  {
    var w := World(map[], docs, now);
    assert Apart(docs.Keys) <==> forall k :: k in docs ==> At(k.dir, k.name + ".header") !in docs by {
      assert forall k :: HeaderOf(k) == At(k.dir, k.name + ".header");
    }
    if Apart(docs.Keys) {
      forall site, events | TimelyRun(w, site, events)
        ensures SpoillessRun(w, site, events) ==> AlwaysFaithful(w, site, events)
      {
        EmptyCacheIsFaithful(docs, now, site);
        ApartRunExactly(w, site, events);
      }
    } else {
      var key :| key in docs && HeaderOf(key) in docs;
      var body: Bytes, head: Bytes := [1], [2, 3];
      var site := Site((k, t) => Page(200, body, head), bytes => true);
      assert |head| > |body|;
      NamesClash(docs, now, site, key);
    }
    hide TimelyRun, SpoillessRun, AlwaysFaithful, Apart;
  }

  lemma MissIsTransparent(w: World, site: Site, ev: Event)
    requires ev.Request? && ev.key in w.docs && ev.key !in w.disk
    ensures Transparent(w, site, ev)
  {
    MarksDiffer();
  }

  lemma ThreeEvents(w: World, site: Site, a: Event, b: Event, c: Event)
    requires Timely(w, a) && Timely(Next(w, site, a), b) && Timely(Next(Next(w, site, a), site, b), c)
    requires a.Request? && b.Request? && c.Request?
    ensures TimelyRun(w, site, [a, b, c])
    ensures var v := Next(w, site, a);
            var u := Next(v, site, b);
            && (SpoillessRun(w, site, [a, b, c]) <==> !Spoils(w, site, a) && !Spoils(v, site, b) && !Spoils(u, site, c))
            && (TransparentRun(w, site, [a, b, c]) <==>
                  Transparent(w, site, a) && Transparent(v, site, b) && Transparent(u, site, c))
  {
    hide Spoils, Transparent, Next;
    var v := Next(w, site, a);
    var u := Next(v, site, b);
    assert [c][1..] == [] && TimelyRun(u, site, [c]);
    assert [b, c][1..] == [c] && TimelyRun(v, site, [b, c]);
    assert [a, b, c][1..] == [b, c];
    assert SpoillessRun(u, site, [c]) <==> !Spoils(u, site, c);
    assert TransparentRun(u, site, [c]) <==> Transparent(u, site, c);
    assert SpoillessRun(v, site, [b, c]) <==> !Spoils(v, site, b) && SpoillessRun(u, site, [c]);
    assert TransparentRun(v, site, [b, c]) <==> Transparent(v, site, b) && TransparentRun(u, site, [c]);
  }

  /** Eviction leaves the copy under this key alone while the request is served from it. */
  predicate Spared(key: Key, fate: Fate) {
    {key, HeaderOf(key)} !! fate.first + fate.beforeRead && key !in fate.inRead
  }

  /**
   Where two documents share a key, what was stored for a answers for b if and only if
   the store was not before the last change of b, and the client is not told 304.
   */
  lemma SharedKeyServesTheOther(d: Disk, a: Document, b: Document, digest: string -> string, stored: Page, at: int,
                                since: Option<int>, page: Page, json: Decoder, fate: Fate)
    requires a.Key(digest) == b.Key(digest) && Spared(b.Key(digest), fate) && Readable(json, stored.head)
    ensures var key := b.Key(digest);
            var copy := Stored(d, a.Key(digest), stored.body, stored.head, at);
            Handled(copy, b, key, since, page, json, fate).1 == Answer(200, copy[key].bytes, [True]) <==>
              b.mtime <= at && !(since.Some? && b.mtime < since.value + SECOND)
  {
    var key := b.Key(digest);
    var copy := Stored(d, key, stored.body, stored.head, at);
    assert |HeaderOf(key).name| != |key.name|;
    OverlayReadable(json, stored.head, Stale(d, HeaderOf(key)));
    OutDateIsNewer(b, at, digest);
    MarksDiffer();
    hide Document.OutDate, Document.Key, Document.HashInput;
  }
}
