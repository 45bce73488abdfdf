/** The request routing and response selection of the Bower registry
    gateway. Three rules are registered in order: the migration rule, which
    redirects (or, for searches, answers with a deprecation notice) every GET
    that does not come through one of the two migrated hosts; the package
    list, served from the cache; and the single-package lookup, served from
    the store. What the store, the cache and the JSON encoder answer is an
    input (`Backend`), so every handler is a total function from the request
    and those answers to an optional response. */
module Registry {
  import opened Http
  import opened GoStrings
  import opened Proxy

  const RegistryHost: string := "registry.bower.io"
  const ComponentsHost: string := "components.bower.io"
  const UpstreamOrigin: string := "https://registry.bower.io"

  const PackagesPath: string := "/packages"
  const PackagesPrefix: string := "/packages/"
  const SearchPrefix: string := "/packages/search/"
  const ListCacheKey: string := "packages"

  const ContentTypeJson: string := "application/json"
  const ContentTypeHtml: string := "text/html"
  const CacheControlValue: string := "public, max-age=604800"

  const DeprecationBody: string :=
    "[{\"name\":\"deprecated\",\"url\":\"This bower version is deprecated. Please update it: npm update -g bower\"}]"
  const NotFoundBody: string := "Package not found"
  const InternalErrorBody: string := "Internal server error"

  /** A package record as the store holds it and the lookup encodes it. */
  datatype Package = Package(name: string, url: string)

  /** The outcome of the prepared `getPackage` query: the row, no row, or
      any other error of the query or of reading its columns. */
  datatype StoreResult = Found(name: string, url: string) | NoRows | StoreError

  /** The outcome of a cache read: the stored value, or an error (a missing
      key is reported as an error too). */
  datatype CacheResult = Hit(value: string) | CacheError

  /** The answers of the collaborators: the store queried by package name,
      the cache read by key, and the JSON encoding of a package (`None` when
      encoding fails). */
  datatype Backend = Backend(
    store: string -> StoreResult,
    cache: string -> CacheResult,
    marshal: Package -> Option<string>)

  // ---------------------------------------------------------------------
  // Request conditions

  /** urlHasPrefix(prefix): a GET whose path starts with `prefix` but not
      with the search namespace. */
  predicate UrlHasPrefix(prefix: string, r: Request)
  {
    r.verb == MethodGet && HasPrefix(r.path, prefix) && !HasPrefix(r.path, SearchPrefix)
  }

  /** pathIs(path): a GET for exactly `path`. */
  predicate PathIs(path: string, r: Request)
  {
    r.verb == MethodGet && r.path == path
  }

  /** The lookup condition, read off the path: a GET for `/packages/`
      followed by anything that does not begin with `search/`. The search
      namespace lies inside the package namespace, so the exclusion is what
      keeps searches away from the lookup. */
  lemma LookupCondition(r: Request)
    ensures UrlHasPrefix(PackagesPrefix, r) <==>
      r.verb == MethodGet && HasPrefix(r.path, PackagesPrefix) &&
      !HasPrefix(r.path[|PackagesPrefix|..], "search/")
    ensures HasPrefix(r.path, SearchPrefix) ==>
      HasPrefix(r.path, PackagesPrefix) && !UrlHasPrefix(PackagesPrefix, r)
  {
    assert PackagesPrefix + "search/" == SearchPrefix;
    HasPrefixConcat(r.path, PackagesPrefix, "search/");
  }

  /** No request satisfies both the list and the lookup condition: the list
      path lacks the trailing `/` of the package namespace. */
  lemma ListAndLookupDisjoint(r: Request)
    ensures !(PathIs(PackagesPath, r) && UrlHasPrefix(PackagesPrefix, r))
  {
  }

  // ---------------------------------------------------------------------
  // Migration rule

  /** A GET that did not come through one of the migrated hosts. */
  predicate IsMigratable(r: Request)
  {
    r.verb == MethodGet && r.host != RegistryHost && r.host != ComponentsHost
  }

  /** The redirect target: the upstream origin, the path, and the raw query
      after a `?` when there is one. */
  function RedirectTarget(path: string, rawQuery: string): string
  {
    UpstreamOrigin + path + (if |rawQuery| > 0 then "?" + rawQuery else "")
  }

  /** The first registered handler. It answers every migratable request:
      search paths at once with the deprecation notice, every other path,
      after the wait, with a permanent redirect to the upstream registry.
      It declines everything else. */
  function MigrationRule(r: Request): (resp: Option<Response>)
    ensures resp.Some? <==> IsMigratable(r)
    ensures resp.Some? && HasPrefix(r.path, SearchPrefix) ==>
      resp.value.status == StatusOK && resp.value.body == DeprecationBody &&
      resp.value.header.Keys == {"Content-Type"} &&
      HasHeader(resp.value, "Content-Type", [ContentTypeJson]) && !resp.value.delayed
    ensures resp.Some? && !HasPrefix(r.path, SearchPrefix) ==>
      resp.value.status == StatusPermanentRedirect && resp.value.body == "" &&
      resp.value.header.Keys == {"Content-Type", "Location"} &&
      HasHeader(resp.value, "Location", [RedirectTarget(r.path, r.rawQuery)]) &&
      HasHeader(resp.value, "Content-Type", [ContentTypeJson]) && resp.value.delayed
  {
    if r.verb == MethodGet && r.host != RegistryHost && r.host != ComponentsHost then
      if HasPrefix(r.path, SearchPrefix) then
        Some(NewResponse(ContentTypeJson, StatusOK, DeprecationBody))
      else
        var response := NewResponse(ContentTypeJson, StatusPermanentRedirect, "").(delayed := true);
        Some(response.(header := HeaderSet(response.header, "Location", RedirectTarget(r.path, r.rawQuery))))
    else
      None
  }

  /** Cuts `s` at its first `?`: the part before it, and the part after it
      (empty when `s` has no `?`). */
  function CutAtQuery(s: string): (cut: (string, string))
    ensures '?' !in cut.0
    ensures '?' in s ==> s == cut.0 + "?" + cut.1
    ensures '?' !in s ==> cut == (s, "")
  {
    if |s| == 0 then ("", "")
    else if s[0] == '?' then ("", s[1..])
    else
      var (before, after) := CutAtQuery(s[1..]);
      assert s == [s[0]] + s[1..];
      ([s[0]] + before, after)
  }

  /** How a client reads a redirect target back: it must start with the
      upstream origin; the rest is a path, then an optional `?` and query. */
  function ParseLocation(target: string): Option<(string, string)>
  {
    if HasPrefix(target, UpstreamOrigin) then Some(CutAtQuery(target[|UpstreamOrigin|..]))
    else None
  }

  /** The redirect target reads back as the original path and raw query, so
      the `?` is added exactly when the query is non-empty. A path that
      itself holds a `?` (a decoded `%3F`) is outside this guarantee. */
  lemma RedirectTargetRoundTrip(path: string, rawQuery: string)
    requires '?' !in path
    ensures ParseLocation(RedirectTarget(path, rawQuery)) == Some((path, rawQuery))
  {
    var target := RedirectTarget(path, rawQuery);
    var suffix := if |rawQuery| > 0 then "?" + rawQuery else "";
    assert target[..|UpstreamOrigin|] == UpstreamOrigin;
    assert target[|UpstreamOrigin|..] == path + suffix;
    var s := path + suffix;
    var cut := CutAtQuery(s);
    if |rawQuery| > 0 {
      assert s[|path|] == '?';
      assert s == cut.0 + "?" + cut.1;
      assert s[|cut.0|] == '?';
      assert |cut.0| == |path|;
      assert cut.0 == s[..|path|] == path;
      assert cut.1 == s[|path| + 1..] == rawQuery;
    } else {
      assert s == path;
    }
  }

  // ---------------------------------------------------------------------
  // Package lookup

  /** The package name of a lookup: the last `/`-separated element of the
      path, that is, the separator-free tail after the path's last `/`, or
      the whole path when it has none. */
  function PackageName(path: string): (name: string)
    ensures '/' !in name
    ensures |name| <= |path| && name == path[|path| - |name|..]
    ensures |name| < |path| ==> path[|path| - |name| - 1] == '/'
  {
    var elements := Split(path, '/');
    SplitLastPiece(path, '/');
    elements[|elements| - 1]
  }

  /** The name is empty exactly when the path is empty or ends in `/`. */
  lemma PackageNameEmpty(path: string)
    ensures PackageName(path) == "" <==> |path| == 0 || path[|path| - 1] == '/'
  {
    var name := PackageName(path);
    if |name| > 0 {
      assert name[|name| - 1] == path[|path| - 1];
    }
  }

  /** A lookup for `/packages/` followed by a name without `/` queries the
      store for that very name. */
  lemma PackageNameOfLookupPath(name: string)
    requires '/' !in name
    ensures PackageName(PackagesPrefix + name) == name
  {
    var path := PackagesPrefix + name;
    assert path[|path| - |name|..] == name;
    LastPieceUnique(path, '/', PackageName(path), name);
  }

  /** A nested path yields only its last element. */
  lemma PackageNameNested()
    ensures PackageName("/packages/a/b/c") == "c"
  {
    var path := "/packages/a/b/c";
    assert path[|path| - 1..] == "c";
    LastPieceUnique(path, '/', PackageName(path), "c");
  }

  /** getPackage: query the store for the path's last element and answer
      200 with the encoded package and a week-long cache directive, 404 when
      there is no such row, and 500 on any other store error or when the
      encoding fails. It always answers. */
  function GetPackage(b: Backend, r: Request): (resp: Option<Response>)
    ensures resp.Some? && !resp.value.delayed
    ensures resp.value.status in {StatusOK, StatusNotFound, StatusInternalServerError}
    ensures resp.value.status != StatusOK ==> resp.value.header.Keys == {"Content-Type"}
    ensures resp.value.status == StatusOK ==> resp.value.header.Keys == {"Content-Type", "Cache-Control"}
    ensures resp.value.status == StatusNotFound <==> b.store(PackageName(r.path)) == NoRows
    ensures resp.value.status == StatusNotFound ==>
      resp.value.body == NotFoundBody && HasHeader(resp.value, "Content-Type", [ContentTypeHtml])
    ensures resp.value.status == StatusInternalServerError ==>
      resp.value.body == InternalErrorBody && HasHeader(resp.value, "Content-Type", [ContentTypeHtml])
    ensures var row := b.store(PackageName(r.path));
      resp.value.status == StatusOK <==> row.Found? && b.marshal(Package(row.name, row.url)).Some?
    ensures var row := b.store(PackageName(r.path));
      resp.value.status == StatusOK ==>
        resp.value.body == b.marshal(Package(row.name, row.url)).value &&
        HasHeader(resp.value, "Content-Type", [ContentTypeJson]) &&
        HasHeader(resp.value, "Cache-Control", [CacheControlValue])
  {
    var packageName := PackageName(r.path);
    match b.store(packageName)
    case NoRows => Some(NewResponse(ContentTypeHtml, StatusNotFound, NotFoundBody))
    case StoreError => Some(NewResponse(ContentTypeHtml, StatusInternalServerError, InternalErrorBody))
    case Found(name, url) =>
      match b.marshal(Package(name, url))
      case None => Some(NewResponse(ContentTypeHtml, StatusInternalServerError, InternalErrorBody))
      case Some(data) =>
        var response := NewResponse(ContentTypeJson, StatusOK, data);
        Some(response.(header := HeaderAdd(response.header, "Cache-Control", CacheControlValue)))
  }

  // ---------------------------------------------------------------------
  // Package list

  /** listPackages: read the list under its fixed key; on a hit answer 200
      with the cached bytes unchanged and a week-long cache directive, on any
      cache error decline so the request goes on. */
  function ListPackages(b: Backend, r: Request): (resp: Option<Response>)
    ensures resp.Some? <==> b.cache(ListCacheKey).Hit?
    ensures resp.Some? ==>
      resp.value.status == StatusOK && resp.value.body == b.cache(ListCacheKey).value &&
      resp.value.header.Keys == {"Content-Type", "Cache-Control"} &&
      HasHeader(resp.value, "Content-Type", [ContentTypeJson]) &&
      HasHeader(resp.value, "Cache-Control", [CacheControlValue]) && !resp.value.delayed
  {
    match b.cache(ListCacheKey)
    case CacheError => None
    case Hit(val) =>
      var response := NewResponse(ContentTypeJson, StatusOK, val);
      Some(response.(header := HeaderAdd(response.header, "Cache-Control", CacheControlValue)))
  }

  // ---------------------------------------------------------------------
  // Dispatch

  /** The handlers in the order they are registered. */
  function Rules(b: Backend): seq<Rule>
  {
    [ MigrationRule,
      When(r => PathIs(PackagesPath, r), r => ListPackages(b, r)),
      When(r => UrlHasPrefix(PackagesPrefix, r), r => GetPackage(b, r)) ]
  }

  /** What the gateway does with a request. Every answer it gives itself
      has one of four statuses; only the redirect is delayed, and only for a
      migratable request; the week-long cache directive appears only on a
      200; a redirect always names its target. */
  function Serve(b: Backend, r: Request): (o: Outcome)
    ensures o.Respond? ==>
      o.response.status in {StatusOK, StatusPermanentRedirect, StatusNotFound, StatusInternalServerError}
    ensures o.Respond? && o.response.delayed ==>
      o.response.status == StatusPermanentRedirect && IsMigratable(r)
    ensures o.Respond? && "Cache-Control" in o.response.header ==> o.response.status == StatusOK
    ensures o.Respond? && o.response.status == StatusPermanentRedirect ==>
      HasHeader(o.response, "Location", [RedirectTarget(r.path, r.rawQuery)]) && o.response.delayed
  {
    var rules := Rules(b);
    var o := Dispatch(rules, r);
    if o.Respond? then
      DispatchAnswerHasSource(rules, r);
      assert rules[1](r) == if PathIs(PackagesPath, r) then ListPackages(b, r) else None;
      assert rules[2](r) == if UrlHasPrefix(PackagesPrefix, r) then GetPackage(b, r) else None;
      o
    else
      o
  }

  /** The migration rule comes first, so on a migratable request it decides
      the outcome whatever the store and the cache hold. */
  lemma MigrationShadows(b: Backend, r: Request)
    requires IsMigratable(r)
    ensures Serve(b, r) == Respond(MigrationRule(r).value)
  {
    DispatchFirstMatch(Rules(b), r, 0);
  }

  /** GET /packages from any other host is redirected (308), never listed. */
  lemma LegacyListRedirects(b: Backend, host: string)
    requires host != RegistryHost && host != ComponentsHost
    ensures var out := Serve(b, Request(MethodGet, host, PackagesPath, ""));
      out.Respond? && out.response.status == StatusPermanentRedirect &&
      HasHeader(out.response, "Location", ["https://registry.bower.io/packages"])
  {
    MigrationShadows(b, Request(MethodGet, host, PackagesPath, ""));
    assert RedirectTarget(PackagesPath, "") == "https://registry.bower.io/packages";
  }

  /** GET /packages through a migrated host is served from the cache on a
      hit and forwarded on any cache error. */
  lemma MigratedListing(b: Backend, r: Request)
    requires PathIs(PackagesPath, r) && !IsMigratable(r)
    ensures Serve(b, r).Respond? <==> b.cache(ListCacheKey).Hit?
    ensures Serve(b, r).Respond? ==> Serve(b, r) == Respond(ListPackages(b, r).value)
  {
    var rules := Rules(b);
    if b.cache(ListCacheKey).Hit? {
      DispatchFirstMatch(rules, r, 1);
    } else {
      DispatchForwardIff(rules, r);
    }
  }

  /** A lookup through a migrated host is always answered by getPackage. */
  lemma MigratedLookup(b: Backend, r: Request)
    requires UrlHasPrefix(PackagesPrefix, r) && !IsMigratable(r)
    ensures Serve(b, r) == Respond(GetPackage(b, r).value)
  {
    DispatchFirstMatch(Rules(b), r, 2);
  }

  /** Exactly the requests that no rule answers are forwarded: not
      migratable, not a lookup, and not a list request with a cache hit. */
  lemma ForwardIff(b: Backend, r: Request)
    ensures Serve(b, r) == Forward <==>
      !IsMigratable(r) && !UrlHasPrefix(PackagesPrefix, r) &&
      !(PathIs(PackagesPath, r) && b.cache(ListCacheKey).Hit?)
  {
    var rules := Rules(b);
    DispatchForwardIff(rules, r);
    assert rules[1](r) == if PathIs(PackagesPath, r) then ListPackages(b, r) else None;
    assert rules[2](r) == if UrlHasPrefix(PackagesPrefix, r) then GetPackage(b, r) else None;
  }

  /** Every method other than GET is forwarded, as is a search through a
      migrated host. */
  lemma ForwardedRequests(b: Backend, r: Request)
    ensures r.verb != MethodGet ==> Serve(b, r) == Forward
    ensures !IsMigratable(r) && HasPrefix(r.path, SearchPrefix) ==> Serve(b, r) == Forward
  {
    ForwardIff(b, r);
  }

  /** Requests through the migrated hosts are never redirected, delayed or
      given the deprecation notice: any answer they get is a list or lookup
      answer. */
  lemma MigratedHostNeverRedirected(b: Backend, r: Request)
    requires r.host == RegistryHost || r.host == ComponentsHost
    ensures Serve(b, r).Respond? ==>
      Serve(b, r).response.status in {StatusOK, StatusNotFound, StatusInternalServerError} &&
      !Serve(b, r).response.delayed && "Location" !in Serve(b, r).response.header
  {
    if Serve(b, r).Respond? {
      ForwardIff(b, r);
      if UrlHasPrefix(PackagesPrefix, r) {
        MigratedLookup(b, r);
      } else {
        MigratedListing(b, r);
      }
    }
  }
}
