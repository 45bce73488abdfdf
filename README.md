# Bower registry gateway: routing and response selection

This project models the decision logic of a gateway that stands in front of
a Bower package registry (`registry.go`). Every inbound request passes
through three handlers, registered in this order:

1. the **migration rule**: a GET that does not arrive through
   `registry.bower.io` or `components.bower.io` is answered by this handler
   and never passed on. A
   `/packages/search/…` path gets a fixed JSON deprecation notice. Any other
   path is held for ten seconds and then answered with a 308 redirect to
   `https://registry.bower.io` plus the path and query;
2. the **package list** (`GET /packages`): the pre-serialised list is read
   from the cache and passed through unchanged with a week-long
   `Cache-Control`. On any cache error the handler declines;
3. the **package lookup** (`GET /packages/…`, except the search namespace):
   the last path element is looked up in the store. The answer is 200 with
   the JSON of the package, 404 when there is no row, or 500 on any other
   error.

The first handler that answers wins. A request no handler answers is
forwarded to the embedded application server.

The store, the cache and the JSON encoder are not modelled. Their answers
are inputs, bundled in `Registry.Backend`:

- the store is a function from package name to `Found(name, url) | NoRows | StoreError`;
- the cache is a function from key to `Hit(value) | CacheError`;
- the encoder is a function from `Package` to `Option<string>`, where `None`
  means encoding failed.

Each handler is then a total function from a request to an optional
response. The gateway is `Registry.Serve`, which is `Proxy.Dispatch` over the
ordered rule list `Registry.Rules`.

Files:

- `strings.dfy` (module `GoStrings`): Go's `strings.HasPrefix` and
  `strings.Split`, plus `Join`. Their lemmas prove that `Split` and `Join`
  are inverse to each other, and characterise the last piece of a split.
- `http.dfy` (module `Http`): requests, headers with Go's `Set`/`Add`, and
  responses as `goproxy.NewResponse` builds them.
- `proxy.dfy` (module `Proxy`): goproxy's first-match handler chain, with
  lemmas for first-match-wins, forwarding and composition.
- `registry.dfy` (module `Registry`): the conditions, the three handlers, the
  rule order and the lemmas about routing.

The 404 and 500 answers of the lookup carry content type `text/html`
(registry.go:150, 152, 157).

## Model

| member | source | states |
|---|---|---|
| `GoStrings.HasPrefixConcat` | registry.go:26-27 | `s` starts with `p + q` iff it starts with `p` and the rest starts with `q`. This is how the search exclusion relates to the package prefix. |
| `GoStrings.Split` | registry.go:144 | `strings.Split` on `/` never returns an empty list, and no piece contains the separator. |
| `GoStrings.SplitCount` | registry.go:144 | The split has exactly one piece more than the path has separators. |
| `GoStrings.JoinSplit` | registry.go:144 | Joining the pieces of a split with the separator gives back the original string. |
| `GoStrings.SplitJoin` | registry.go:144 | Splitting the join of any non-empty list of separator-free pieces gives back that list. |
| `GoStrings.SplitLastPiece` | registry.go:144-145 | The last piece is a suffix of the string. It is either the whole string or is immediately preceded by the separator. |
| `GoStrings.LastPieceUnique` | registry.go:144-145 | Only one suffix has that shape, so the shape determines the last element. |
| `Http.HeaderSet` | registry.go:117 | `Header.Set` leaves exactly the one given value under the key and changes no other key. |
| `Http.HeaderAdd` | registry.go:160 | `Header.Add` appends the value to the key's existing values and changes no other key. |
| `Http.NewResponse` | registry.go:159 | A fresh response has the given status and body, only a `Content-Type` header holding the given type, and no delay. |
| `Proxy.When` | registry.go:124-125 | `OnRequest(cond).DoFunc(h)` declines when the condition fails. Otherwise it is exactly the handler. |
| `Proxy.DispatchForwardIff` | registry.go:103-125 | A request is forwarded iff every registered handler declines it. |
| `Proxy.DispatchFirstMatch` | registry.go:103-125 | If handler `k` answers and all earlier handlers decline, the outcome is handler `k`'s answer. |
| `Proxy.DispatchAnswerHasSource` | registry.go:103-125 | Every answer was produced by some handler, and all handlers before it declined. |
| `Proxy.DispatchConcat` | registry.go:103-125 | Handlers after an answering prefix are never consulted. A declining prefix hands the request to the handlers after it. |
| `Registry.UrlHasPrefix` | registry.go:23-29 | `urlHasPrefix(prefix)`: a GET whose path starts with the prefix and not with `/packages/search/`. Its meaning for the package prefix is stated by `Registry.LookupCondition`. |
| `Registry.PathIs` | registry.go:32-36 | `pathIs(path)`: a GET for exactly that path. `Registry.ListAndLookupDisjoint` states that for `/packages` it never overlaps the lookup condition. |
| `Registry.LookupCondition` | registry.go:23-29 | The lookup condition holds iff the request is a GET, the path is `/packages/` followed by something that does not start with `search/`. Every search path is inside `/packages/` but is never a lookup. |
| `Registry.ListAndLookupDisjoint` | registry.go:23-36 | No request satisfies both the `pathIs("/packages")` condition and the `urlHasPrefix("/packages/")` condition. |
| `Registry.IsMigratable` | registry.go:105 | A GET whose Host is neither `registry.bower.io` nor `components.bower.io`. `Registry.MigrationRule` answers exactly these requests, and `Registry.MigrationShadows` shows they never reach the later handlers. |
| `Registry.RedirectTarget` | registry.go:113-116 | The upstream origin, then the path, then `?` and the raw query when the query is non-empty. `Registry.RedirectTargetRoundTrip` proves the target reads back as that path and query. |
| `Registry.MigrationRule` | registry.go:103-122 | Answers iff the request is a GET from a host other than the two migrated hosts. A search path gets 200, the fixed deprecation body, no delay, and only a `Content-Type: application/json` header. Any other path gets a delayed 308 with an empty body and exactly two headers: `Content-Type: application/json` and `Location` equal to the redirect target. |
| `Registry.CutAtQuery` | registry.go:113-116 | Splits at the first `?`. The part before it holds no `?`. The string is recovered as `before + "?" + after` when it contains a `?`, and is returned whole otherwise. |
| `Registry.RedirectTargetRoundTrip` | registry.go:113-116 | For a path without `?`, the `Location` reads back as the original path and raw query. So the target is origin + path, and `?` + query is appended exactly when the query is non-empty. |
| `Registry.PackageName` | registry.go:144-145 | The looked-up name contains no `/`. It is a suffix of the path and is either the whole path or is preceded by `/`. |
| `Registry.PackageNameEmpty` | registry.go:144-145 | The name is empty exactly when the path is empty or ends in `/`. |
| `Registry.PackageNameOfLookupPath` | registry.go:144-145 | For a name without `/`, `/packages/<name>` looks up exactly that name. |
| `Registry.PackageNameNested` | registry.go:144-145 | `/packages/a/b/c` looks up `c`. |
| `Registry.GetPackage` | registry.go:143-162 | Always answers, with status 200, 404 or 500 and never delayed. Only the 200 answer carries `Cache-Control`; the 404 and 500 answers have only `Content-Type`. 404 iff the store has no row, with `text/html` "Package not found". 500 on any other store error or a failed encoding, with `text/html` "Internal server error". 200 iff there is a row and it encodes. The 200 body is the encoding, with `application/json` and `Cache-Control: public, max-age=604800`. |
| `Registry.ListPackages` | registry.go:164-172 | Answers iff the cache read of `packages` succeeds. The answer is 200 with the cached value unchanged as body, and with exactly the headers `Content-Type: application/json` and `Cache-Control: public, max-age=604800`. |
| `Proxy.Dispatch` | registry.go:103-125 | goproxy's handler chain: handlers run in registration order and the first answer is the outcome. It is characterised by `Proxy.DispatchForwardIff`, `Proxy.DispatchFirstMatch`, `Proxy.DispatchAnswerHasSource` and `Proxy.DispatchConcat`. |
| `Registry.Rules` | registry.go:103-125 | The three handlers in registration order: the migration rule, then the list behind `pathIs("/packages")`, then the lookup behind `urlHasPrefix("/packages/")`. The routing lemmas below state what this order decides. |
| `Registry.Serve` | registry.go:103-125 | Every answer the gateway gives has status 200, 308, 404 or 500. Only a 308 is delayed, and only for a migratable request. `Cache-Control` appears only on a 200. A 308 always carries `Location` equal to the redirect target. |
| `Registry.MigrationShadows` | registry.go:103-125 | On a migratable request the migration rule's answer is the outcome, whatever the store and cache hold. |
| `Registry.LegacyListRedirects` | registry.go:105-124 | `GET /packages` from any non-migrated host gets a 308 to `https://registry.bower.io/packages`, never the list. |
| `Registry.MigratedListing` | registry.go:124 | On a migrated host, `GET /packages` is answered iff the cache hits, and then by the list handler. |
| `Registry.MigratedLookup` | registry.go:125 | On a migrated host, a lookup path is always answered by the lookup handler. |
| `Registry.ForwardIff` | registry.go:103-125 | A request is forwarded iff it is not migratable, not a lookup, and not a list request with a cache hit. |
| `Registry.ForwardedRequests` | registry.go:103-125 | Every non-GET request is forwarded. So is a search request through a migrated host. |
| `Registry.MigratedHostNeverRedirected` | registry.go:103-125 | A request through a migrated host is never redirected, delayed or given the deprecation notice. Any answer it gets has status 200, 404 or 500 and no `Location` header. |

## Left out

- Startup in `main` (registry.go:47-101, 127-129) is not modelled: connecting to memcached and authenticating, creating the connection pool and preparing the statement, starting the `node` child process, fatal exits, and `ListenAndServe`. All of this is I/O and process lifecycle.
- `getEnv` (registry.go:38-44) is not modelled. It only reads configuration from the environment.
- The ten-second `time.Sleep` (registry.go:111) is recorded only as the `delayed` flag on the redirect response. Wall-clock time is not modelled.
- `nonProxy` (registry.go:132-136) and goproxy's forwarding round trip are not modelled. The request rewrite to `localhost:3001`, re-entry into `ServeHTTP`, and the reverse-proxy relay are reduced to the abstract `Forward` outcome.
- `pool.QueryRow(...).Scan` and `cn.Get` are foreign clients and appear only as the `store` and `cache` inputs. The flags and CAS values that `cn.Get` also returns are dropped.
- `json.Marshal` is the `marshal` input, so the exact bytes of the encoded package are not modelled.
- `Package` values are not validated or escaped anywhere. This matches the source.
- Go's canonicalisation of header keys is not modelled. Every key the handlers use is already canonical.
- The status text, `ContentLength` and the back-pointer to the request that `goproxy.NewResponse` fills in are not modelled. So are the request the handlers return alongside the response, and the unused `ProxyCtx`.
- Go strings are byte strings. Here each `char` stands for one byte.
- `GoStrings.Split` models `strings.Split` only for a one-character separator, the only kind the gateway uses.
- The concurrency of one goroutine per request is not modelled. Handlers share no state that they write.
- `Registry.RedirectTargetRoundTrip` only covers paths without `?`. The source concatenates the decoded path unescaped, so a path holding a `?` (sent as `%3F`) gives a `Location` that reads back with a different path and query.
