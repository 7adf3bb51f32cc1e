# ReplDBClient in Dafny

A model of `ReplDBClient`, a single-class Java client for the Replit key-value
database, and proofs about it. The class exists in two copies: the current one
(`src/main/java/dev/is_a/abhay7/ReplDBClient.java`) and an older, legacy one
(`src/main/dev/is_a/abhay7/ReplDBClient.java`). The model covers what the
class adds around its HTTP calls:

- the **key/value codec**: `encode` (URLEncoder), `decode` (URLDecoder) and the
  form body that `getPostData` builds;
- the **write-through cache**: the one `static` map that every instance shares;
- the cold fill at construction, the single-key and batch forms of
  `get`/`set`/`delete`, `empty`, and `list` in its cached and remote branches.

## Layout

- `Wrappers.dfy`: `Option`, standing for a Java reference that may be null.
- `FormCodec.dfy`: the application/x-www-form-urlencoded encoding as
  java.net.URLEncoder produces it, with upper-case percent-encoding triplets
  (section 2.1 of RFC 3986). Also the matching
  java.net.URLDecoder parser, the client's null-tolerant `encode`/`decode`
  wrappers, and the POST body. Text is modelled as its UTF-8 bytes.
- `StoreSemantics.dfy`: the client's behaviour as pure functions:
  - `Config` holds the final fields `url`, `encoded` and `cached`, plus the copy
    (`Generation`) the client was built from.
  - `Cache` is the content of the static field. `None` stands for null.
  - `Get` gives the result of `get(key, c)` and the request it sends, if any.
  - `AfterSet` and `AfterDelete` give the cache after a successful `set` or
    `delete`.
  - The listing is split the way `String.split("\n")` splits it.
  - `ColdFill` and `Warm` describe the cold fill.
  - `AfterSets` and `AfterDeletes` describe the batch loops.
- `StoreProperties.dfy`: lemmas about these functions.
- `Client.dfy`: the imperative part.
  - `SharedCache` is the static field as one heap object. Every `Client`
    refers to it, so the sharing is explicit.
  - `Client.Open` and `Client.OpenLegacy` are the two constructors.
  - `FillCache` is the cold fill. `FillFrom` is its for-each loop.
  - `Set` and `Delete` update the shared cache in place.
  - `List` collects the matching cache keys in a loop.
  - `GetAll` and `DeleteAll` fill result arrays in index loops.
  - `SetAll` and `SetMap` run the same loop, `SetEach`. `SetMap` first takes
    the map's keys in iterator order (`Iterate`).
  - `Empty` is also in `Client.dfy`.

  Each method is proved against the functions in `StoreSemantics`.

A POST request carries the key/value pair `getPostData` serializes, and
`PostBody` gives the body that goes on the wire.

Every `httpClient.send` is an oracle. The server's answer is a parameter:
`Ok(body)` when `send` returned and `Fail` when it threw. The source treats any
HTTP response as success, whatever its status code, and so does the model.
Single-key operations take one `reply`. The cold fill and the batch operations
take `replies: nat -> Reply`, which answers the request made for position `i`.

Exceptions that escape the Java methods are results (`Outcome.Threw`), not
preconditions:

- A malformed `%` escape makes URLDecoder throw `IllegalArgumentException`, and
  `decode` catches only `UnsupportedEncodingException`.
- The legacy `get(key, true)` dereferences a null static cache.
- A failed listing during the cold fill returns null, and the for-each over it
  throws.
- `empty()` passes a null listing to `delete(String...)`.

`get` changes nothing. It is therefore the function `StoreSemantics.Get`,
applied to the client's `cfg` and to the current content of `shared.entries`.
`GetAll` and the cold fill call it.

### Differences between the two copies

The two copies are modelled together.

- The legacy constructor takes `(url, encoded, cached, debug)`; the current
  one takes `(url, cached, encoded, debug)`.
- On a bad URL the legacy constructor calls `System.exit(1)`. The model returns
  `Exited(1)` from `OpenLegacy`.
- The legacy `get` looks at the static cache whenever its `cached` argument is
  true. The current `get` also requires the client's own `cached` flag. This is
  `ConsultsCache`.

The rest of the legacy copy is line-for-line the same as the current one:

| legacy lines | operation |
|---|---|
| 172-180 | batch `get` |
| 184-214 | `set` |
| 216-232 | batch `set` |
| 236-271 | `delete` |
| 273-275 | `empty` |
| 291-344 | `list` |
| 348-373 | codec |

### Behaviour worth noting

- **Cold-fill failures.** When a value GET fails during the cold fill, the key
  is cached with a null value (`FailedFillPinsNull`).
- **Decode errors.** A malformed escape makes `decode` throw
  IllegalArgumentException out of the calling operation.
- **Failed listing.** A failed remote listing returns null.
- **Write-once `set`.** `set` never overwrites a cached key
  (`SetKeepsFirstValue`).
- **Process exit.** On a bad URL the legacy constructor exits the process.
- **Decoded keys from the cold fill.** The cold fill stores listed keys, which
  are already decoded, while `get`/`set`/`delete` use encoded keys
  (`ColdFillKeysAreDecoded`).
- **Decoded values from the cold fill.** In encoded, cached mode the cold fill
  caches each value already decoded, and a cache hit in `get` decodes it a
  second time. A stored `50%25` is cached as `50%`, and `get` of its key then
  throws IllegalArgumentException (`ColdFillValuesDecodedTwice`).
- **Double encoding in `empty()`.** In encoded, cached mode `empty()`
  re-encodes the encoded cache keys it lists (`EmptyKeepsEncodedKey`).
- **Empty store.** An empty store lists as `[""]`, so the cold fill caches the
  empty key with whatever its GET yields (`EmptyStoreCachesEmptyKey`).

## Model

Paths are relative to the repository root: `src/main/java/…` is the current copy, `src/main/dev/…` the legacy one.

| member | source | states |
|---|---|---|
| FormCodec.Encode | src/main/java/dev/is_a/abhay7/ReplDBClient.java:485 | URLEncoder turns each byte into one to three bytes, and leaves a text made only of unreserved bytes unchanged |
| FormCodec.Decode | src/main/java/dev/is_a/abhay7/ReplDBClient.java:491 | URLDecoder never lengthens its input, cannot fail on a text without `%`, and gives back unchanged a text with neither `%` nor `+` |
| FormCodec.DecodeIsNotIdempotent | src/main/java/dev/is_a/abhay7/ReplDBClient.java:491 | decoding twice differs from decoding once: "50%25" decodes to "50%", and decoding that throws |
| FormCodec.FormBody | src/main/java/dev/is_a/abhay7/ReplDBClient.java:475-481 | the POST body of a pair is between len(k)+len(v)+1 and 3(len(k)+len(v))+1 bytes long, counting key and value in bytes, and a pair of unreserved texts goes out as `k=v` |
| FormCodec.EncodeText | src/main/java/dev/is_a/abhay7/ReplDBClient.java:483-486 | `encode` gives "" exactly for null or "", and a non-empty text otherwise |
| FormCodec.DecodeText | src/main/java/dev/is_a/abhay7/ReplDBClient.java:488-500 | `decode(null)` and `decode("")` give "" |
| FormCodec.EncodeIsFormSafe | src/main/java/dev/is_a/abhay7/ReplDBClient.java:485 | URLEncoder emits only ASCII letters and digits, `.` `-` `*` `_`, `+` and `%`; never `=` or `&` |
| FormCodec.DecodeAfterEncodedByte | src/main/java/dev/is_a/abhay7/ReplDBClient.java:485-491 | URLDecoder reads back one encoded byte (kept byte, `+` for space, or `%XX`) as that byte, whatever follows |
| FormCodec.DecodeEncode | src/main/java/dev/is_a/abhay7/ReplDBClient.java:483-491 | round trip: URLDecoder.decode(URLEncoder.encode(s)) == s for every byte string |
| FormCodec.DecodeTextEncodeText | src/main/dev/is_a/abhay7/ReplDBClient.java:356-373 | the client's `decode(encode(s)) == s`, with null read as "" |
| FormCodec.EncodeInjective | src/main/java/dev/is_a/abhay7/ReplDBClient.java:483-486 | different keys never encode to the same stored key |
| FormCodec.DecodeTrailingPercent | src/main/java/dev/is_a/abhay7/ReplDBClient.java:490-499 | a dangling `%` after any encoded text makes `decode` fail: the IllegalArgumentException is not caught |
| FormCodec.SignedEscapes | src/main/java/dev/is_a/abhay7/ReplDBClient.java:491 | URLDecoder's Integer.parseInt accepts `%+1` as byte 1 and `%-0` as byte 0, and rejects `%-1` |
| FormCodec.FormBodySeparator | src/main/java/dev/is_a/abhay7/ReplDBClient.java:475-481 | the POST body `encode(k)=encode(v)` holds exactly one `=`, right after the encoded key, and no `&` |
| FormCodec.ParseFormBody | src/main/dev/is_a/abhay7/ReplDBClient.java:348-354 | splitting the POST body at its first `=` and decoding both sides gives back exactly the key and value |
| StoreSemantics.Get | src/main/java/dev/is_a/abhay7/ReplDBClient.java:182-223 | `get` sends no request exactly when it consults the cache and the cache is null or holds the stored key; a hit returns the cached entry (decoded in encoded mode) and a null cache throws NullPointerException; otherwise it sends one GET of url/key and returns null on failure or the (decoded) body |
| StoreSemantics.AfterSet | src/main/java/dev/is_a/abhay7/ReplDBClient.java:280-282 | after a successful `set` in cached mode the stored key is present; no existing entry changes (write-once); the only possible new entry is stored key to stored value |
| StoreSemantics.AfterDelete | src/main/java/dev/is_a/abhay7/ReplDBClient.java:347-349 | after a successful `delete` in cached mode the stored key is absent; every other entry is unchanged |
| StoreProperties.SetThenGetHits | src/main/java/dev/is_a/abhay7/ReplDBClient.java:186-194 | after `set(k, v)` inserts, `get(k, true)` returns v with no request; in encoded mode this uses the round trip |
| StoreProperties.SetKeepsFirstValue | src/main/dev/is_a/abhay7/ReplDBClient.java:204-206 | a `set` of a key already cached leaves the cache exactly as it was |
| StoreProperties.DeleteThenGetIsRemote | src/main/java/dev/is_a/abhay7/ReplDBClient.java:347-349 | after a successful cached `delete`, `get` of that key goes to the server, and `list` shows the same keys minus that one |
| StoreProperties.UncachedGetAlwaysRemote | src/main/java/dev/is_a/abhay7/ReplDBClient.java:186 | a current-copy client built without the cache sends a GET for every `get`, whatever the shared cache holds |
| StoreProperties.LegacyGetConsultsSharedCache | src/main/dev/is_a/abhay7/ReplDBClient.java:124-136 | the legacy `get(key, true)` throws NullPointerException on a null static cache, and answers a hit from the cache with no request even for a client built uncached |
| StoreProperties.CurrentGetNeverNullPointer | src/main/java/dev/is_a/abhay7/ReplDBClient.java:186 | for a current-copy client whose cache exists when `cached` is set, `get` never throws NullPointerException |
| StoreProperties.RemoteRoundTrip | src/main/java/dev/is_a/abhay7/ReplDBClient.java:262-267 | through the double encoding: the server parses the POST into the stored key and value, DELETE and GET address that stored key, and a GET answered with the stored value returns the original value |
| StoreProperties.ColdFillKeys | src/main/java/dev/is_a/abhay7/ReplDBClient.java:149-153 | the cold fill caches only listed keys, and all of them when no step throws |
| StoreProperties.ColdFillRemote | src/main/java/dev/is_a/abhay7/ReplDBClient.java:151-153 | when listed keys are distinct and none hits the partly filled cache, each maps to what its own GET returned (null for a failed GET) |
| StoreProperties.ColdFillStopsAtFailure | src/main/java/dev/is_a/abhay7/ReplDBClient.java:151-153 | once one `get` of the cold fill throws, later listed keys are never fetched or cached |
| StoreProperties.FailedFillPinsNull | src/main/java/dev/is_a/abhay7/ReplDBClient.java:152 | without encoding, a key whose cold-fill GET failed is cached as null, and `get(key)` keeps answering null from the cache with no request |
| StoreProperties.EmptyStoreCachesEmptyKey | src/main/java/dev/is_a/abhay7/ReplDBClient.java:457-462 | an empty listing splits into [""], so the cold fill of an empty store caches the key "" with whatever its GET returns (null when the GET fails), or stops with the exception when decoding the answer throws |
| StoreProperties.ColdFillScenario | src/main/dev/is_a/abhay7/ReplDBClient.java:102-106 | a store holding a=1, b=2 cold-fills to exactly {a: 1, b: 2}, and `get("a")` then returns "1" with no request |
| StoreProperties.ColdFillKeysAreDecoded | src/main/java/dev/is_a/abhay7/ReplDBClient.java:151-152 | in encoded mode the cold fill caches the decoded key "a b", `get("a b")` misses it, and `set("a b", v)` adds a second entry "a+b" |
| StoreSemantics.SplitLines | src/main/java/dev/is_a/abhay7/ReplDBClient.java:459-461 | `split("\n")` of a body without a newline is that body as the one token; with a newline, the last token, if any, is never empty |
| StoreProperties.ColdFillValuesDecodedTwice | src/main/java/dev/is_a/abhay7/ReplDBClient.java:152 | in encoded, cached mode the cold fill caches a stored "50%25" as the decoded "50%", and `get` of its key then throws IllegalArgumentException from the cache |
| StoreProperties.FieldsJoin | src/main/java/dev/is_a/abhay7/ReplDBClient.java:459-461 | the fields `split` works from lose nothing: joined with newlines they give back the body |
| StoreProperties.FieldsHaveNoNewline | src/main/java/dev/is_a/abhay7/ReplDBClient.java:459-461 | no field between newlines holds a newline |
| StoreProperties.DropTrailingEmptyPrefix | src/main/dev/is_a/abhay7/ReplDBClient.java:332-334 | dropping trailing empty fields keeps a prefix of the fields, and every dropped field is empty |
| StoreProperties.SplitLinesKeepsContent | src/main/java/dev/is_a/abhay7/ReplDBClient.java:457-462 | `split("\n")` gives the whole body when it has no newline; otherwise the leading fields, dropping only empty ones; no token holds a newline |
| StoreProperties.EncodedNewlineSplits | src/main/java/dev/is_a/abhay7/ReplDBClient.java:458-459 | the listing is decoded before it is split, so an encoded key holding a newline comes back split and never as itself |
| StoreProperties.AfterSetsFirstWins | src/main/java/dev/is_a/abhay7/ReplDBClient.java:301-303 | write-once across a batch `set` in cached mode: a stored key absent before the batch ends up holding the stored value of the first pair with that stored key whose POST succeeded; later pairs with that stored key change nothing |
| StoreProperties.AfterSetsKeys | src/main/java/dev/is_a/abhay7/ReplDBClient.java:299-305 | a batch `set` in cached mode adds the stored key of exactly the pairs whose POST succeeded, and keeps every earlier entry |
| StoreProperties.BatchSetIndependence | src/main/dev/is_a/abhay7/ReplDBClient.java:216-222 | in a two-pair batch whose first POST fails, only the second key reaches the cache |
| StoreProperties.AfterDeletesKeys | src/main/java/dev/is_a/abhay7/ReplDBClient.java:365-371 | a batch `delete` in cached mode removes the stored key of exactly the keys whose DELETE succeeded; survivors keep their values |
| StoreProperties.EmptyKeepsEncodedKey | src/main/java/dev/is_a/abhay7/ReplDBClient.java:378-380 | `empty()` in encoded, cached mode re-encodes the listed cache key "a+b" and leaves that entry in the cache even when every DELETE succeeds |
| ReplDbClient.SharedCache.constructor | src/main/java/dev/is_a/abhay7/ReplDBClient.java:49 | the static cache starts as null |
| ReplDbClient.Client.Open | src/main/java/dev/is_a/abhay7/ReplDBClient.java:123-163 | a host other than kv.replit.com or a scheme other than https throws IllegalArgumentException and leaves the cache alone; otherwise the first caching client cold-fills a null cache and fails exactly when the fill threw; any other client leaves the cache unchanged |
| ReplDbClient.Client.OpenLegacy | src/main/dev/is_a/abhay7/ReplDBClient.java:76-116 | arguments are (url, encoded, cached); a bad host or scheme exits with status 1 and yields no instance; otherwise the same as `Open` |
| ReplDbClient.Client.Build | src/main/dev/is_a/abhay7/ReplDBClient.java:100-110 | the cold fill runs only when `cached` is set and the static cache is null; a built client satisfies `cached ==> cache != null` |
| ReplDbClient.Client.FillCache | src/main/java/dev/is_a/abhay7/ReplDBClient.java:149-157 | the static cache becomes a new map filled by `list(false)` and `get(s)`; it is the cold fill `Warm`, including the NullPointerException after a failed listing |
| ReplDbClient.Client.FillFrom | src/main/java/dev/is_a/abhay7/ReplDBClient.java:151-153 | the for-each over the listed keys leaves the cache and the exception that stopped it exactly as `ColdFill` says |
| ReplDbClient.Client.List | src/main/java/dev/is_a/abhay7/ReplDBClient.java:418-471 | with `c` and a non-null cache: no request, and each cache key starting with the (encoded, null as "") prefix exactly once; otherwise one GET of url?prefix=…, null on failure, the body decoded before it is split |
| ReplDbClient.Client.GetAll | src/main/java/dev/is_a/abhay7/ReplDBClient.java:242-250 | a new array as long as `keys` whose element i is `get(keys[i], c)`; the first exception aborts |
| ReplDbClient.Client.Set | src/main/java/dev/is_a/abhay7/ReplDBClient.java:260-290 | sends one POST of the doubly encoded body; false with the cache unchanged on failure; true and `AfterSet` on success |
| ReplDbClient.Client.SetAll | src/main/java/dev/is_a/abhay7/ReplDBClient.java:299-305 | result length min(keys, values); element i is whether pair i's POST succeeded; the cache is `AfterSets` of the zipped pairs |
| ReplDbClient.Client.SetMap | src/main/java/dev/is_a/abhay7/ReplDBClient.java:313-321 | result length is the map's size; it sets every entry once in some iteration order and reports per position |
| ReplDbClient.Client.Iterate | src/main/java/dev/is_a/abhay7/ReplDBClient.java:316 | the for-each over the map's entries visits every key exactly once, in an order left open |
| ReplDbClient.Client.SetEach | src/main/java/dev/is_a/abhay7/ReplDBClient.java:301-303 | the loop of both batch `set`s: element i is whether pair i's POST succeeded, and the cache is `AfterSets` of the pairs in order |
| ReplDbClient.Client.Delete | src/main/java/dev/is_a/abhay7/ReplDBClient.java:330-357 | sends one DELETE of url/key; false with the cache unchanged on failure; true and `AfterDelete` on success |
| ReplDbClient.Client.DeleteAll | src/main/java/dev/is_a/abhay7/ReplDBClient.java:365-371 | result length is the number of keys; element i is whether key i's DELETE succeeded; the cache is `AfterDeletes` |
| ReplDbClient.Client.Empty | src/main/java/dev/is_a/abhay7/ReplDBClient.java:378-380 | deletes exactly the snapshot `list()` took, reporting in a new array: all cache keys in cached mode, the remote listing otherwise; a null listing throws NullPointerException |

## Left out

- HTTP transport is left out: `HttpClient`, `HttpRequest`, HTTP/2 and status
  codes. Each send is an oracle reply. The `response != null` checks cannot
  fail after a send that returned.
- `URI.create` rejecting a request URI is not modelled. This can happen when
  `encoded` is false and a key holds a character a URI does not allow.
- `java.net.URI` parsing is left out. The constructors take the URL's parsed
  scheme and host as a parameter, with `None` when the URL does not parse.
- Logging, `printStackTrace`, the `debug` flag, `setDebug` and the getters are
  left out. They do not affect state or results.
- The constructors that read `REPLIT_DB_URL` are left out, as are the overloads
  that default arguments. Those overloads are:
  - the constructors that take a URL and fewer flags: `(url)`, `(url, cached)`
    and `(url, cached, encoded)` in the current copy, and `(url)`,
    `(url, encoded)` and `(url, encoded, cached)` in the legacy copy. Each
    calls the full constructor with the missing `cached` and `encoded` set to
    true and `debug` set to false;
  - `get(key)`, `get(keys...)`, `list()`, `list(prefix)` and `list(cached)`.
    Each is the general member called with `this.cached` or `""`.
- Text is modelled as UTF-8 bytes, so UTF-16 conversion is left out. This
  covers:
  - unpaired surrogates;
  - the U+FFFD replacement URLDecoder makes for escapes that are not valid
    UTF-8;
  - Integer.parseInt accepting non-ASCII Unicode digits in an escape.
- Null keys and values passed to `get`, `set` and `delete` are not modelled.
  A null `list` prefix is modelled.
- HashMap iteration order is left out. The cached listing, `set(Map)` and
  `empty()` are specified up to an order (`Enumerates`, `order`, `listed`).
- Concurrent use of the static cache is left out. The model is sequential.
- The oracle is fixed per position: two identical requests in one batch get the
  answer given for their positions.
- ReplDbClient.Client.GetAll: does not report the requests it sends. Each
  position sends what `StoreSemantics.Get` says.
- ReplDbClient.Client.SetAll: does not report the requests it sends. Each pair
  sends `SetRequest`.
- ReplDbClient.Client.SetMap: does not report the requests it sends. Each entry
  sends `SetRequest`.
- ReplDbClient.Client.DeleteAll: does not report the requests it sends. Each key
  sends `DeleteRequest`.
- ReplDbClient.Client.Empty: does not report the requests it sends, neither the
  listing GET nor the DELETEs.
- ReplDbClient.Client.FillCache: does not report the requests it sends. These
  are the listing GET `url?prefix=` and one value GET per listed key that
  misses the cache.
- ReplDbClient.Client.FillFrom: does not report the value GETs it sends.
- ReplDbClient.Client.SetEach: does not report the requests it sends. Each pair
  sends `SetRequest`.
