/**
 * The browser's cache storage as the service worker sees it (section 5 of the W3C
 * Service Workers specification): an ordered map from cache name to cache, each
 * cache a map from request URL (fragment excluded) to a stored response. Every
 * platform call the worker makes is a function from one storage value to the next.
 */
module CacheStorage {
  import opened Wrappers
  import opened Strings

  /** A response's type, section 2.2.6 of the WHATWG Fetch standard; `Basic` is a
      same-origin filtered response. */
  datatype ResponseType = Basic | Cors | Default | Error | Opaque | OpaqueRedirect

  datatype Response = Response(status: int, kind: ResponseType, body: string)

  datatype Request = Request(verb: string, url: string)

  type Cache = map<string, Response>

  predicate Distinct(xs: seq<string>) {
    forall i, j :: 0 <= i < j < |xs| ==> xs[i] != xs[j]
  }

  /** The name to cache map: `names` keeps the order in which caches were created. */
  datatype Storage = Storage(names: seq<string>, caches: map<string, Cache>) {
    predicate Valid() {
      && Distinct(names)
      && (forall n :: n in caches ==> n in names)
      && (forall n :: n in names ==> n in caches)
    }
  }

  /** The part of a URL that cache matching compares: everything before the first '#'. */
  function UrlKey(url: string): (k: string)
    ensures k <= url && '#' !in k
    ensures |k| < |url| ==> url[|k|] == '#'
  {
    if url == [] || url[0] == '#' then [] else [url[0]] + UrlKey(url[1..])
  }

  /** `xs` with every occurrence of `x` removed. */
  function Without(xs: seq<string>, x: string): (r: seq<string>)
    ensures forall y :: y in r <==> y in xs && y != x
  {
    if xs == [] then [] else (if xs[0] == x then [] else [xs[0]]) + Without(xs[1..], x)
  }

  lemma {:induction false} WithoutDistinct(xs: seq<string>, x: string)
    requires Distinct(xs)
    ensures Distinct(Without(xs, x))
  {
    if xs != [] {
      var rest := xs[1..];
      assert Distinct(rest) by {
        forall i, j | 0 <= i < j < |rest| ensures rest[i] != rest[j] {
          assert rest[i] == xs[i + 1] && rest[j] == xs[j + 1];
        }
      }
      assert xs[0] !in Without(rest, x) by {
        forall j | 0 <= j < |rest| ensures rest[j] != xs[0] {
          assert rest[j] == xs[j + 1];
        }
      }
      WithoutDistinct(rest, x);
    }
  }

  lemma {:induction false} WithoutAppend(a: seq<string>, b: seq<string>, x: string)
    ensures Without(a + b, x) == Without(a, x) + Without(b, x)
  {
    if a == [] {
      assert a + b == b;
    } else {
      assert (a + b)[1..] == a[1..] + b;
      WithoutAppend(a[1..], b, x);
    }
  }

  lemma {:induction false} WithoutAbsent(a: seq<string>, x: string)
    requires x !in a
    ensures Without(a, x) == a
  {
    if a != [] {
      WithoutAbsent(a[1..], x);
    }
  }

  /** `caches.open(name)`: the named cache exists afterwards; a missing one is created
      empty and takes the last place in the order. */
  function Open(s: Storage, name: string): (r: Storage)
    requires s.Valid()
    ensures r.Valid() && name in r.caches
    ensures name in s.caches ==> r == s
    ensures name !in s.caches ==> r.names == s.names + [name] && r.caches == s.caches[name := map[]]
  {
    if name in s.caches then s else Storage(s.names + [name], s.caches[name := map[]])
  }

  /** `caches.delete(name)`. */
  function Delete(s: Storage, name: string): (r: Storage)
    requires s.Valid()
    ensures r.Valid() && name !in r.caches
    ensures r.caches == s.caches - {name}
    ensures forall n :: n in r.names <==> n in s.names && n != name
  {
    WithoutDistinct(s.names, name);
    Storage(Without(s.names, name), s.caches - {name})
  }

  /** `cache.match(request)`: a request other than GET matches nothing. */
  function CacheMatch(c: Cache, req: Request): (r: Option<Response>)
    ensures r.Some? <==> req.verb == "GET" && UrlKey(req.url) in c
    ensures r.Some? ==> r.value in c.Values
  {
    if req.verb == "GET" && UrlKey(req.url) in c then Some(c[UrlKey(req.url)]) else None
  }

  /** The cache called `name` holds a response for `req`. */
  predicate Holds(s: Storage, name: string, req: Request) {
    name in s.caches && CacheMatch(s.caches[name], req).Some?
  }

  /** The storage-wide match over the caches listed in `names`, in that order. */
  function MatchIn(s: Storage, names: seq<string>, req: Request): (r: Option<Response>)
    ensures r.None? <==> forall i :: 0 <= i < |names| ==> !Holds(s, names[i], req)
    ensures r.Some? ==>
      exists i :: 0 <= i < |names| && Holds(s, names[i], req) &&
        r == CacheMatch(s.caches[names[i]], req) &&
        forall j :: 0 <= j < i ==> !Holds(s, names[j], req)
  {
    if names == [] then None
    else if Holds(s, names[0], req) then CacheMatch(s.caches[names[0]], req)
    else
      var r := MatchIn(s, names[1..], req);
      assert r.Some? ==> (
        exists i :: 0 < i < |names| && Holds(s, names[i], req) &&
          r == CacheMatch(s.caches[names[i]], req) &&
          forall j :: 0 <= j < i ==> !Holds(s, names[j], req)) by {
        if r.Some? {
          var k :| 0 <= k < |names[1..]| && Holds(s, names[1..][k], req) &&
            r == CacheMatch(s.caches[names[1..][k]], req) &&
            forall j :: 0 <= j < k ==> !Holds(s, names[1..][j], req);
          assert names[k + 1] == names[1..][k];
          forall j | 0 <= j < k + 1 ensures !Holds(s, names[j], req) {
            if j > 0 { assert names[j] == names[1..][j - 1]; }
          }
        }
      }
      assert r.None? <==> forall i :: 0 <= i < |names| ==> !Holds(s, names[i], req) by {
        if r.None? {
          forall i | 0 <= i < |names| ensures !Holds(s, names[i], req) {
            if i > 0 { assert names[i] == names[1..][i - 1]; }
          }
        }
      }
      r
  }

  /** `caches.match(request)`, section 5.5.1 of the W3C Service Workers specification:
      every cache is searched, oldest first, and the first stored response wins. */
  function Match(s: Storage, req: Request): (r: Option<Response>)
    ensures req.verb != "GET" ==> r.None?
    ensures r.None? <==> forall n :: n in s.names ==> !Holds(s, n, req)
    ensures r.Some? ==> exists n :: n in s.names && Holds(s, n, req) && r == CacheMatch(s.caches[n], req)
    ensures r.Some? ==>
      exists i :: 0 <= i < |s.names| && Holds(s, s.names[i], req) &&
        r == CacheMatch(s.caches[s.names[i]], req) &&
        forall j :: 0 <= j < i ==> !Holds(s, s.names[j], req)
  {
    MatchIn(s, s.names, req)
  }

  /** A fragment never changes what is matched. */
  lemma MatchIgnoresFragment(s: Storage, verb: string, url: string, fragment: string)
    requires '#' !in url
    ensures Match(s, Request(verb, url + "#" + fragment)) == Match(s, Request(verb, url))
  {
    UrlKeyOfFragment(url, fragment);
    forall n | n in s.caches
      ensures CacheMatch(s.caches[n], Request(verb, url + "#" + fragment)) == CacheMatch(s.caches[n], Request(verb, url))
    {
    }
    MatchInSameHolders(s, s.names, Request(verb, url + "#" + fragment), Request(verb, url));
  }

  lemma {:induction false} UrlKeyOfFragment(url: string, fragment: string)
    requires '#' !in url
    ensures UrlKey(url + "#" + fragment) == UrlKey(url) == url
    decreases |url|
  {
    if url != [] {
      assert (url + "#" + fragment)[1..] == url[1..] + "#" + fragment;
      UrlKeyOfFragment(url[1..], fragment);
    }
  }

  /** Two requests every cache answers alike are answered alike by the storage. */
  lemma {:induction false} MatchInSameHolders(s: Storage, names: seq<string>, a: Request, b: Request)
    requires forall n :: n in s.caches ==> CacheMatch(s.caches[n], a) == CacheMatch(s.caches[n], b)
    ensures MatchIn(s, names, a) == MatchIn(s, names, b)
    decreases |names|
  {
    if names != [] {
      MatchInSameHolders(s, names[1..], a, b);
    }
  }

  /** A request the cache accepts for storing: GET with an http or https URL. */
  predicate RequestCacheable(req: Request) {
    req.verb == "GET" && (StartsWith(req.url, "http:") || StartsWith(req.url, "https:"))
  }

  /** `cache.put(request, response)` into the cache `name`; a request that is not
      cacheable, or a partial (206) response, is refused and nothing is stored. */
  function Put(s: Storage, name: string, req: Request, resp: Response): (r: Storage)
    requires s.Valid() && name in s.caches
    ensures r.Valid() && r.names == s.names && r.caches.Keys == s.caches.Keys
    ensures forall n :: n in s.caches && n != name ==> r.caches[n] == s.caches[n]
    ensures forall k :: k in s.caches[name] && k != UrlKey(req.url) ==>
      k in r.caches[name] && r.caches[name][k] == s.caches[name][k]
    ensures r.caches[name].Keys <= s.caches[name].Keys + {UrlKey(req.url)}
    ensures r != s ==> RequestCacheable(req) && resp.status != 206
    ensures RequestCacheable(req) && resp.status != 206 ==> CacheMatch(r.caches[name], req) == Some(resp)
  {
    if RequestCacheable(req) && resp.status != 206 then
      Storage(s.names, s.caches[name := s.caches[name][UrlKey(req.url) := resp]])
    else s
  }

  /** A fetched response `addAll` accepts (section 5.4.4 of the W3C Service Workers
      specification): not a network error, an ok
      status, not partial content. */
  predicate AddAllAccepts(fetched: Option<Response>) {
    fetched.Some? && fetched.value.kind != Error &&
    200 <= fetched.value.status <= 299 && fetched.value.status != 206
  }

  /** Stores `resps[i]` under `keys[i]` for each i, in order. */
  function PutAll(c: Cache, keys: seq<string>, resps: seq<Response>): (r: Cache)
    requires |keys| == |resps|
    ensures r.Keys == c.Keys + set k | k in keys
    ensures forall k :: k in c && k !in keys ==> r[k] == c[k]
    decreases |keys|
  {
    if keys == [] then c else PutAll(c[keys[0] := resps[0]], keys[1..], resps[1..])
  }

  lemma {:induction false} PutAllAt(c: Cache, keys: seq<string>, resps: seq<Response>, i: nat)
    requires |keys| == |resps| && Distinct(keys) && i < |keys|
    ensures PutAll(c, keys, resps)[keys[i]] == resps[i]
    decreases |keys|
  {
    var c' := c[keys[0] := resps[0]];
    assert Distinct(keys[1..]) by {
      forall a, b | 0 <= a < b < |keys[1..]| ensures keys[1..][a] != keys[1..][b] {
        assert keys[1..][a] == keys[a + 1] && keys[1..][b] == keys[b + 1];
      }
    }
    if i == 0 {
      assert keys[0] !in keys[1..] by {
        forall j | 0 <= j < |keys[1..]| ensures keys[1..][j] != keys[0] {
          assert keys[1..][j] == keys[j + 1];
        }
      }
      assert keys[0] in c';
    } else {
      assert keys[1..][i - 1] == keys[i];
      PutAllAt(c', keys[1..], resps[1..], i - 1);
    }
  }

  /** With distinct keys, every key ends up mapped to its own response. */
  lemma PutAllWrites(c: Cache, keys: seq<string>, resps: seq<Response>)
    requires |keys| == |resps| && Distinct(keys)
    ensures forall i :: 0 <= i < |keys| ==> PutAll(c, keys, resps)[keys[i]] == resps[i]
  {
    forall i | 0 <= i < |keys| ensures PutAll(c, keys, resps)[keys[i]] == resps[i] {
      PutAllAt(c, keys, resps, i);
    }
  }

  /** The stored keys of a list of requests. */
  function RequestKeys(reqs: seq<Request>): (ks: seq<string>)
    ensures |ks| == |reqs| && forall i :: 0 <= i < |reqs| ==> ks[i] == UrlKey(reqs[i].url)
  {
    seq(|reqs|, i requires 0 <= i < |reqs| => UrlKey(reqs[i].url))
  }

  function Values(fetched: seq<Option<Response>>): (vs: seq<Response>)
    requires forall i :: 0 <= i < |fetched| ==> fetched[i].Some?
    ensures |vs| == |fetched| && forall i :: 0 <= i < |fetched| ==> vs[i] == fetched[i].value
  {
    seq(|fetched|, i requires 0 <= i < |fetched| => fetched[i].value)
  }

  /** `cache.addAll(requests)` into the cache `name`, given what fetching each request
      produced (None: a network error). All or nothing: one refused request or response
      and `None` comes back, the cache untouched. */
  function AddAll(s: Storage, name: string, reqs: seq<Request>, fetched: seq<Option<Response>>): (r: Option<Storage>)
    requires s.Valid() && name in s.caches && |reqs| == |fetched|
    ensures r.Some? <==> forall i :: 0 <= i < |reqs| ==> RequestCacheable(reqs[i]) && AddAllAccepts(fetched[i])
    ensures r.Some? ==> (r.value.Valid() && r.value.names == s.names &&
      r.value.caches == s.caches[name := PutAll(s.caches[name], RequestKeys(reqs), Values(fetched))])
  {
    if forall i :: 0 <= i < |reqs| ==> RequestCacheable(reqs[i]) && AddAllAccepts(fetched[i]) then
      Some(Storage(s.names, s.caches[name := PutAll(s.caches[name], RequestKeys(reqs), Values(fetched))]))
    else None
  }

  /** Opening a cache adds no match: a request no cache held is held by no cache but,
      possibly, the one opened. */
  lemma OpenKeepsMisses(s: Storage, name: string, req: Request)
    requires s.Valid() && Match(s, req).None?
    ensures var o := Open(s, name);
      forall j :: 0 <= j < |o.names| && o.names[j] != name ==> !Holds(o, o.names[j], req)
  {
    var o := Open(s, name);
    forall j | 0 <= j < |o.names| && o.names[j] != name ensures !Holds(o, o.names[j], req) {
      if name !in s.caches {
        assert o.names[j] == s.names[j];
      }
    }
  }

  /** A response stored by `put` is what the next storage-wide match returns, unless an
      older cache already holds that request. */
  lemma PutThenMatch(s: Storage, name: string, req: Request, resp: Response, k: nat)
    requires s.Valid() && name in s.caches && RequestCacheable(req) && resp.status != 206
    requires k < |s.names| && s.names[k] == name
    requires forall j :: 0 <= j < k ==> !Holds(s, s.names[j], req)
    ensures Match(Put(s, name, req, resp), req) == Some(resp)
  {
    var r := Put(s, name, req, resp);
    assert Holds(r, r.names[k], req);
    var m := Match(r, req);
    var i :| 0 <= i < |r.names| && Holds(r, r.names[i], req) &&
      m == CacheMatch(r.caches[r.names[i]], req) &&
      forall j :: 0 <= j < i ==> !Holds(r, r.names[j], req);
    if i < k {
      assert r.names[i] != name by {
        assert s.names[i] != s.names[k];
      }
      assert Holds(s, s.names[i], req);
    }
    assert i == k;
  }
}
