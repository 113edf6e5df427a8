/**
 * The service worker (service-worker.js): an install handler that seeds the current
 * cache generation with a fixed page manifest, an activate handler that deletes every
 * other generation, and a cache-first fetch handler that writes fresh same-origin
 * 200 responses back. The handlers are the methods of `Worker`; what each does to the
 * cache storage is stated by a function on storage values, and the properties of the
 * worker are lemmas about those functions.
 */
module ServiceWorker {
  import opened Wrappers
  import opened Strings
  import opened CacheStorage

  /** The current cache generation. */
  const CACHE_NAME: string := "asotabsicon-v1"

  /** The pages cached on install, as the worker lists them. */
  const URLS_TO_CACHE: seq<string> := [
    "/", "index.html", "styles.css", "script.js", "properties.html", "property-detail.html",
    "contact.html", "land.html", "commercial.html", "about.html", "valuation.html", "login.html"
  ]

  /** An origin as `self.location.origin` gives it: http or https, no fragment. */
  predicate ValidOrigin(origin: string) {
    (StartsWith(origin, "http:") || StartsWith(origin, "https:")) && '#' !in origin
  }

  /** A manifest path resolved against the worker's own URL, which sits at the site root. */
  function Resolve(origin: string, path: string): (url: string)
    ensures path != [] ==> StartsWith(url, origin + "/")
    ensures '#' !in origin && '#' !in path ==> '#' !in url
  {
    if StartsWith(path, "/") then origin + path else origin + "/" + path
  }

  /** The requests `cache.addAll(urlsToCache)` builds. */
  function ManifestRequests(origin: string): (reqs: seq<Request>)
    ensures |reqs| == |URLS_TO_CACHE|
    ensures forall i :: 0 <= i < |reqs| ==> reqs[i] == Request("GET", Resolve(origin, URLS_TO_CACHE[i]))
  {
    seq(|URLS_TO_CACHE|, i requires 0 <= i < |URLS_TO_CACHE| => Request("GET", Resolve(origin, URLS_TO_CACHE[i])))
  }

  /** The keys install stores. */
  function ManifestKeys(origin: string): set<string> {
    set k | k in RequestKeys(ManifestRequests(origin))
  }

  // ---------------------------------------------------------------------------
  // install
  // ---------------------------------------------------------------------------

  datatype Installed = Installed(storage: Storage, cached: bool)

  /** The install handler: open the current cache, `addAll` the manifest, and on
      success call `skipWaiting` (`cached`); a failure is caught and logged. */
  function InstallEffect(s: Storage, origin: string, fetched: seq<Option<Response>>): (r: Installed)
    requires s.Valid() && |fetched| == |URLS_TO_CACHE|
    ensures r.storage.Valid() && CACHE_NAME in r.storage.caches
    ensures r.storage.names == Open(s, CACHE_NAME).names
    ensures forall n :: n in s.caches && n != CACHE_NAME ==> r.storage.caches[n] == s.caches[n]
    ensures !r.cached ==> r.storage == Open(s, CACHE_NAME)
  {
    var withCache := Open(s, CACHE_NAME);
    var added := AddAll(withCache, CACHE_NAME, ManifestRequests(origin), fetched);
    if added.Some? then Installed(added.value, true) else Installed(withCache, false)
  }

  lemma UrlKeyWithoutFragment(url: string)
    requires '#' !in url
    ensures UrlKey(url) == url
  {
  }

  lemma {:induction false} DistinctCardinality(xs: seq<string>)
    requires Distinct(xs)
    ensures |set x | x in xs| == |xs|
  {
    if xs != [] {
      var rest := xs[1..];
      assert Distinct(rest) by {
        forall i, j | 0 <= i < j < |rest| ensures rest[i] != rest[j] {
          assert rest[i] == xs[i + 1] && rest[j] == xs[j + 1];
        }
      }
      assert xs[0] !in rest by {
        forall j | 0 <= j < |rest| ensures rest[j] != xs[0] {
          assert rest[j] == xs[j + 1];
        }
      }
      DistinctCardinality(rest);
      assert (set x | x in xs) == (set x | x in rest) + {xs[0]} by {
        assert xs == [xs[0]] + rest;
      }
    }
  }

  lemma ManifestPathsDistinct()
    ensures Distinct(URLS_TO_CACHE)
    ensures forall i :: 0 <= i < |URLS_TO_CACHE| ==> '#' !in URLS_TO_CACHE[i]
    ensures forall i :: 0 <= i < |URLS_TO_CACHE| ==> (StartsWith(URLS_TO_CACHE[i], "/") <==> i == 0)
  {
    forall i | 0 <= i < |URLS_TO_CACHE| ensures StartsWith(URLS_TO_CACHE[i], "/") <==> i == 0 {
      var p := URLS_TO_CACHE[i];
      assert StartsWith(p, "/") <==> p[0] == '/' by {
        assert p != [];
        if p[0] == '/' { assert p[..1] == [p[0]]; }
      }
    }
  }

  /** Paths that do not start with '/' resolve under the origin's root, and '/' to the
      root itself, so different manifest paths give different URLs. */
  lemma ResolveInjective(origin: string, p: string, q: string)
    requires p == "/" || (p != [] && !StartsWith(p, "/"))
    requires q == "/" || (q != [] && !StartsWith(q, "/"))
    requires Resolve(origin, p) == Resolve(origin, q)
    ensures p == q
  {
    var u := Resolve(origin, p);
    if p != "/" && q != "/" {
      assert p == u[|origin| + 1..] && q == u[|origin| + 1..];
    }
  }

  lemma ManifestKey(origin: string, i: nat)
    requires '#' !in origin && i < |URLS_TO_CACHE|
    ensures RequestKeys(ManifestRequests(origin))[i] == Resolve(origin, URLS_TO_CACHE[i])
  {
    ManifestPathsDistinct();
    var u := Resolve(origin, URLS_TO_CACHE[i]);
    assert '#' !in u;
    UrlKeyWithoutFragment(u);
  }

  /** The twelve manifest paths resolve to twelve different keys. */
  lemma ManifestKeysDistinct(origin: string)
    requires '#' !in origin
    ensures Distinct(RequestKeys(ManifestRequests(origin)))
    ensures |ManifestKeys(origin)| == |URLS_TO_CACHE| == 12
  {
    var ks := RequestKeys(ManifestRequests(origin));
    ManifestPathsDistinct();
    forall i, j | 0 <= i < j < |ks| ensures ks[i] != ks[j] {
      ManifestKey(origin, i);
      ManifestKey(origin, j);
      if ks[i] == ks[j] {
        ResolveInjective(origin, URLS_TO_CACHE[i], URLS_TO_CACHE[j]);
      }
    }
    DistinctCardinality(ks);
  }

  /** Every manifest request is one the cache accepts: GET, under an http(s) origin. */
  lemma ManifestRequestsCacheable(origin: string)
    requires ValidOrigin(origin)
    ensures forall i :: 0 <= i < |URLS_TO_CACHE| ==> RequestCacheable(ManifestRequests(origin)[i])
  {
    forall i | 0 <= i < |URLS_TO_CACHE| ensures RequestCacheable(ManifestRequests(origin)[i]) {
      var p := URLS_TO_CACHE[i];
      var tail := if StartsWith(p, "/") then p else "/" + p;
      assert Resolve(origin, p) == origin + tail;
      StartsWithExtend(origin, if StartsWith(origin, "http:") then "http:" else "https:", tail);
    }
  }

  /** Install is all or nothing: it caches exactly when every manifest page was fetched
      with an acceptable response. */
  lemma InstallAllOrNothing(s: Storage, origin: string, fetched: seq<Option<Response>>)
    requires s.Valid() && |fetched| == |URLS_TO_CACHE| && ValidOrigin(origin)
    ensures InstallEffect(s, origin, fetched).cached <==> forall i :: 0 <= i < |fetched| ==> AddAllAccepts(fetched[i])
  {
    ManifestRequestsCacheable(origin);
  }

  lemma InstalledCache(s: Storage, origin: string, fetched: seq<Option<Response>>)
    requires s.Valid() && |fetched| == |URLS_TO_CACHE|
    requires InstallEffect(s, origin, fetched).cached
    ensures forall i :: 0 <= i < |fetched| ==> fetched[i].Some?
    ensures InstallEffect(s, origin, fetched).storage.caches[CACHE_NAME] ==
      PutAll(Open(s, CACHE_NAME).caches[CACHE_NAME], RequestKeys(ManifestRequests(origin)), Values(fetched))
  {
  }

  /** A successful install leaves the current cache holding the twelve manifest keys
      (besides what it held before), each with the response fetched for it. */
  lemma InstallWritesManifest(s: Storage, origin: string, fetched: seq<Option<Response>>)
    requires s.Valid() && |fetched| == |URLS_TO_CACHE| && ValidOrigin(origin)
    requires InstallEffect(s, origin, fetched).cached
    ensures var c := InstallEffect(s, origin, fetched).storage.caches[CACHE_NAME];
      && c.Keys == Open(s, CACHE_NAME).caches[CACHE_NAME].Keys + ManifestKeys(origin)
      && forall i :: 0 <= i < |fetched| ==> c[RequestKeys(ManifestRequests(origin))[i]] == fetched[i].value
  {
    var ks := RequestKeys(ManifestRequests(origin));
    ManifestKeysDistinct(origin);
    InstalledCache(s, origin, fetched);
    var c0 := Open(s, CACHE_NAME).caches[CACHE_NAME];
    PutAllWrites(c0, ks, Values(fetched));
  }

  // ---------------------------------------------------------------------------
  // activate
  // ---------------------------------------------------------------------------

  /** The cache storage after activate: only the current generation remains. */
  function Purge(s: Storage): (r: Storage)
    requires s.Valid()
    ensures r.Valid()
    ensures forall n :: n in r.names ==> n == CACHE_NAME
    ensures r.caches.Keys <= {CACHE_NAME}
    ensures CACHE_NAME in s.caches <==> CACHE_NAME in r.caches
    ensures CACHE_NAME in s.caches ==> r.caches[CACHE_NAME] == s.caches[CACHE_NAME]
  {
    if CACHE_NAME in s.caches then Storage([CACHE_NAME], map[CACHE_NAME := s.caches[CACHE_NAME]])
    else Storage([], map[])
  }

  /** Activate is idempotent: on purged storage it deletes nothing and changes nothing. */
  lemma PurgeIdempotent(s: Storage)
    requires s.Valid()
    ensures Without(Purge(s).names, CACHE_NAME) == []
    ensures Purge(Purge(s)) == Purge(s)
  {
    var p := Purge(s);
    assert forall n :: n !in Without(p.names, CACHE_NAME);
  }

  /** After activate, a lookup can only be answered by the current generation. */
  lemma PurgedMatch(s: Storage, req: Request)
    requires s.Valid()
    ensures Match(Purge(s), req) == if CACHE_NAME in s.caches then CacheMatch(s.caches[CACHE_NAME], req) else None
  {
    var p := Purge(s);
    if CACHE_NAME in s.caches {
      assert p.names == [CACHE_NAME];
      assert p.names[1..] == [];
    }
  }

  /** The deletion loop of activate, run over `names`: each name other than the
      current one is deleted, in order. */
  function DeleteStale(s: Storage, names: seq<string>): (r: Storage)
    requires s.Valid()
    ensures r.Valid()
    decreases |names|
  {
    if names == [] then s
    else DeleteStale(if names[0] != CACHE_NAME then Delete(s, names[0]) else s, names[1..])
  }

  /** One turn of the deletion loop, seen from position `i` of the names. */
  lemma DeleteStaleStep(s: Storage, names: seq<string>, i: nat)
    requires s.Valid() && i < |names|
    ensures DeleteStale(s, names[i..]) ==
      DeleteStale(if names[i] != CACHE_NAME then Delete(s, names[i]) else s, names[i + 1..])
  {
    assert names[i..][1..] == names[i + 1..];
  }

  /** One turn of the loop that collects the deleted names. */
  lemma WithoutStep(names: seq<string>, i: nat, deleted: seq<string>, x: string)
    requires i < |names|
    requires deleted + Without(names[i..], x) == Without(names, x)
    ensures (if names[i] != x then deleted + [names[i]] else deleted) + Without(names[i + 1..], x) == Without(names, x)
  {
    assert names[i..][1..] == names[i + 1..];
  }

  /** What the activate loop knows at position `i`: the deletions still to come finish
      the purge that started from `s0`, and `deleted` plus the stale names still to come
      are all the stale names. */
  predicate DeletingFrom(s0: Storage, st: Storage, names: seq<string>, i: nat, deleted: seq<string>) {
    && s0.Valid() && st.Valid() && i <= |names|
    && DeleteStale(st, names[i..]) == DeleteStale(s0, names)
    && deleted + Without(names[i..], CACHE_NAME) == Without(names, CACHE_NAME)
  }

  /** One turn of the activate loop keeps `DeletingFrom`. */
  lemma DeletingStep(s0: Storage, st: Storage, names: seq<string>, i: nat, deleted: seq<string>)
    requires DeletingFrom(s0, st, names, i, deleted) && i < |names|
    ensures DeletingFrom(s0, if names[i] != CACHE_NAME then Delete(st, names[i]) else st, names, i + 1,
      if names[i] != CACHE_NAME then deleted + [names[i]] else deleted)
  {
    DeleteStaleStep(st, names, i);
    WithoutStep(names, i, deleted, CACHE_NAME);
  }

  /** Storage holding nothing but the current generation is already purged. */
  lemma PurgeFixed(s: Storage)
    requires s.Valid() && forall n :: n in s.names ==> n == CACHE_NAME
    ensures s == Purge(s)
  {
    if s.names == [] {
      assert s.caches.Keys == {};
    } else {
      assert s.names[0] in s.names;
      assert |s.names| == 1 by {
        DistinctCardinality(s.names);
        assert (set x | x in s.names) == {CACHE_NAME};
      }
      assert s.names == [CACHE_NAME];
      assert s.caches.Keys == {CACHE_NAME};
    }
  }

  /** Deleting a stale name that follows only current-generation names removes it from
      the order and does not change the purged result. */
  lemma DeleteStaleName(s: Storage, done: seq<string>, x: string, rest: seq<string>)
    requires s.Valid() && s.names == done + [x] + rest
    requires x != CACHE_NAME
    ensures Delete(s, x).names == done + rest
    ensures Purge(Delete(s, x)) == Purge(s)
  {
    DistinctSplit(done, x, rest);
    WithoutMiddle(done, x, rest);
  }

  /** Removing a name that occurs once, between `done` and `rest`. */
  lemma WithoutMiddle(done: seq<string>, x: string, rest: seq<string>)
    requires x !in done && x !in rest
    ensures Without(done + [x] + rest, x) == done + rest
  {
    calc {
      Without(done + [x] + rest, x);
      { WithoutAppend(done + [x], rest, x); }
      Without(done + [x], x) + Without(rest, x);
      { WithoutAppend(done, [x], x); assert [x][1..] == []; }
      Without(done, x) + [] + Without(rest, x);
      { WithoutAbsent(done, x); WithoutAbsent(rest, x); }
      done + [] + rest;
    }
  }

  /** The middle element of a list without duplicates occurs nowhere else. */
  lemma DistinctSplit(done: seq<string>, x: string, rest: seq<string>)
    requires Distinct(done + [x] + rest)
    ensures x !in done && x !in rest
  {
    var all := done + [x] + rest;
    assert x == all[|done|];
    forall j | 0 <= j < |rest| ensures rest[j] != x {
      assert rest[j] == all[|done| + 1 + j];
    }
    forall j | 0 <= j < |done| ensures done[j] != x {
      assert done[j] == all[j];
    }
  }

  /** Running the deletion loop over every name of the storage leaves exactly `Purge`:
      generalised to a loop that has already dealt with a prefix of the names, of
      which only the current generation is left. */
  lemma {:induction false} DeleteStaleSuffix(s: Storage, done: seq<string>, names: seq<string>)
    requires s.Valid() && s.names == done + names
    requires forall n :: n in done ==> n == CACHE_NAME
    ensures DeleteStale(s, names) == Purge(s)
    decreases |names|
  {
    if names == [] {
      assert s.names == done;
      PurgeFixed(s);
    } else {
      var x, rest := names[0], names[1..];
      assert s.names == done + [x] + rest;
      DeleteStaleStep(s, names, 0);
      assert names[0..] == names;
      if x == CACHE_NAME {
        assert s.names == (done + [x]) + rest;
        DeleteStaleSuffix(s, done + [x], rest);
      } else {
        DeleteStaleName(s, done, x, rest);
        DeleteStaleSuffix(Delete(s, x), done, rest);
      }
    }
  }

  lemma DeleteStaleIsPurge(s: Storage)
    requires s.Valid()
    ensures DeleteStale(s, s.names) == Purge(s)
  {
    DeleteStaleSuffix(s, [], s.names);
  }

  // ---------------------------------------------------------------------------
  // fetch
  // ---------------------------------------------------------------------------

  /** The URL test of the fetch handler: the URL with the origin's first occurrence
      removed is a manifest path, or the URL contains the origin. */
  predicate CacheableUrl(url: string, origin: string)
    ensures CacheableUrl(url, origin) <==> Includes(url, origin) || url in URLS_TO_CACHE
  {
    ReplaceFirst(url, origin, "") in URLS_TO_CACHE || Includes(url, origin)
  }

  /** What the fetch handler answers, the storage afterwards, and whether it went to
      the network; `network` is what `fetch(event.request)` yields (None: it rejected). */
  datatype FetchOutcome = FetchOutcome(response: Option<Response>, storage: Storage, networkUsed: bool)

  function HandleFetch(s: Storage, origin: string, req: Request, network: Option<Response>): (r: FetchOutcome)
    requires s.Valid()
    ensures r.storage.Valid()
    ensures Match(s, req).Some? ==> r == FetchOutcome(Match(s, req), s, false)
    ensures Match(s, req).None? ==> r.networkUsed && r.response == network
    ensures r.storage != s ==>
      && network.Some? && network.value.status == 200 && network.value.kind == Basic
      && CacheableUrl(req.url, origin)
      && r.storage == Put(Open(s, CACHE_NAME), CACHE_NAME, req, network.value)
  {
    var hit := Match(s, req);
    if hit.Some? then FetchOutcome(hit, s, false)
    else if network.None? then FetchOutcome(None, s, true)
    else if network.value.status != 200 || network.value.kind != Basic then FetchOutcome(network, s, true)
    else if CacheableUrl(req.url, origin) then
      FetchOutcome(network, Put(Open(s, CACHE_NAME), CACHE_NAME, req, network.value), true)
    else FetchOutcome(network, s, true)
  }

  /** A fetch changes no cache other than the current one, and no key of it other than
      the request's; the only name it can add is the current one, at the end. */
  lemma FetchIsLocal(s: Storage, origin: string, req: Request, network: Option<Response>)
    requires s.Valid()
    ensures var t := HandleFetch(s, origin, req, network).storage;
      && (t.names == s.names || t.names == s.names + [CACHE_NAME])
      && (forall n :: n in s.caches ==> n in t.caches)
      && (forall n :: n in s.caches && n != CACHE_NAME ==> t.caches[n] == s.caches[n])
      && (CACHE_NAME in s.caches ==>
            forall k :: k in s.caches[CACHE_NAME] && k != UrlKey(req.url) ==>
              k in t.caches[CACHE_NAME] && t.caches[CACHE_NAME][k] == s.caches[CACHE_NAME][k])
  {
  }

  /** A response the fetch handler stores answers the next fetch of the same request,
      without the network. */
  lemma StoredResponseServesNextFetch(s: Storage, origin: string, req: Request, network: Option<Response>, later: Option<Response>)
    requires s.Valid()
    requires Match(s, req).None? && network.Some? && network.value.status == 200 && network.value.kind == Basic
    requires CacheableUrl(req.url, origin) && RequestCacheable(req)
    ensures var t := HandleFetch(s, origin, req, network).storage;
      HandleFetch(t, origin, req, later) == FetchOutcome(network, t, false)
  {
    var o := Open(s, CACHE_NAME);
    OpenKeepsMisses(s, CACHE_NAME, req);
    assert CACHE_NAME in o.names;
    var k :| 0 <= k < |o.names| && o.names[k] == CACHE_NAME;
    assert forall j :: 0 <= j < k ==> o.names[j] != o.names[k];
    var t := Put(o, CACHE_NAME, req, network.value);
    assert HandleFetch(s, origin, req, network).storage == t;
    PutThenMatch(o, CACHE_NAME, req, network.value, k);
    assert Match(t, req) == network;
  }

  /** Once install has cached the manifest, fetching any manifest page is answered from
      the cache storage without going to the network. */
  lemma InstalledPagesServedFromCache(s: Storage, origin: string, fetched: seq<Option<Response>>, i: nat, network: Option<Response>)
    requires s.Valid() && |fetched| == |URLS_TO_CACHE| && ValidOrigin(origin) && i < |URLS_TO_CACHE|
    requires InstallEffect(s, origin, fetched).cached
    ensures !HandleFetch(InstallEffect(s, origin, fetched).storage, origin, ManifestRequests(origin)[i], network).networkUsed
  {
    var t := InstallEffect(s, origin, fetched).storage;
    var req := ManifestRequests(origin)[i];
    InstallWritesManifest(s, origin, fetched);
    assert UrlKey(req.url) == RequestKeys(ManifestRequests(origin))[i];
    StoredKeyMatches(t, req);
  }

  /** A GET request whose key the current cache holds is matched. */
  lemma StoredKeyMatches(t: Storage, req: Request)
    requires t.Valid() && CACHE_NAME in t.caches && req.verb == "GET"
    requires UrlKey(req.url) in t.caches[CACHE_NAME]
    ensures Match(t, req).Some?
  {
    assert CACHE_NAME in t.names;
    var k :| 0 <= k < |t.names| && t.names[k] == CACHE_NAME;
    assert Holds(t, t.names[k], req);
  }

  // ---------------------------------------------------------------------------
  // the worker
  // ---------------------------------------------------------------------------

  class Worker {
    /** `self.location.origin`. */
    const origin: string
    var storage: Storage
    /** `self.skipWaiting()` has been called. */
    var skippedWaiting: bool
    /** `self.clients.claim()` has been called. */
    var claimed: bool
    /** Network requests the fetch handler has issued. */
    var networkFetches: nat

    ghost predicate Valid()
      reads this
    {
      storage.Valid()
    }

    constructor (origin: string, storage: Storage)
      requires storage.Valid()
      ensures Valid() && this.origin == origin && this.storage == storage
      ensures !skippedWaiting && !claimed && networkFetches == 0
    {
      this.origin := origin;
      this.storage := storage;
      skippedWaiting, claimed, networkFetches := false, false, 0;
    }

    /** The install event; `fetched[i]` is what fetching `urlsToCache[i]` produced. */
    method Install(fetched: seq<Option<Response>>) returns (cached: bool)
      requires Valid() && |fetched| == |URLS_TO_CACHE|
      modifies this
      ensures Valid()
      ensures var r := InstallEffect(old(storage), origin, fetched); storage == r.storage && cached == r.cached
      ensures skippedWaiting == (old(skippedWaiting) || cached)
      ensures claimed == old(claimed) && networkFetches == old(networkFetches)
    {
      storage := Open(storage, CACHE_NAME);
      var added := AddAll(storage, CACHE_NAME, ManifestRequests(origin), fetched);
      if added.Some? {
        storage := added.value;
        skippedWaiting := true;
        cached := true;
      } else {
        cached := false;
      }
    }

    /** The activate event: every cache whose name is not the current one is deleted, in
        the order `caches.keys()` lists them, and then the worker claims its clients.
        `deleted` lists the names deleted. */
    method Activate() returns (deleted: seq<string>)
      requires Valid()
      modifies this
      ensures Valid() && storage == Purge(old(storage))
      ensures deleted == Without(old(storage).names, CACHE_NAME)
      ensures claimed && skippedWaiting == old(skippedWaiting) && networkFetches == old(networkFetches)
    {
      var s0 := storage;
      var st := storage;
      var cacheNames := storage.names;
      deleted := [];
      var i := 0;
      while i < |cacheNames|
        invariant DeletingFrom(s0, st, cacheNames, i, deleted)
        invariant unchanged(this)
      {
        var name := cacheNames[i];
        DeletingStep(s0, st, cacheNames, i, deleted);
        if name != CACHE_NAME {
          st := Delete(st, name);
          deleted := deleted + [name];
        }
        i := i + 1;
      }
      DeleteStaleIsPurge(s0);
      storage := st;
      claimed := true;
    }

    /** The fetch event for `req`; `network` is what `fetch(req)` would yield (None: it
        rejected). The answer is None when the handler resolves with no response. */
    method Fetch(req: Request, network: Option<Response>) returns (response: Option<Response>)
      requires Valid()
      modifies this
      ensures Valid()
      ensures var r := HandleFetch(old(storage), origin, req, network);
        && response == r.response && storage == r.storage
        && networkFetches == old(networkFetches) + (if r.networkUsed then 1 else 0)
      ensures skippedWaiting == old(skippedWaiting) && claimed == old(claimed)
    {
      var hit := Match(storage, req);
      if hit.Some? {
        return hit;
      }
      networkFetches := networkFetches + 1;
      if network.None? {
        return None;
      }
      var networkResponse := network.value;
      if networkResponse.status != 200 || networkResponse.kind != Basic {
        return network;
      }
      if CacheableUrl(req.url, origin) {
        var responseToCache := networkResponse;
        storage := Open(storage, CACHE_NAME);
        storage := Put(storage, CACHE_NAME, req, responseToCache);
      }
      return network;
    }
  }
}
