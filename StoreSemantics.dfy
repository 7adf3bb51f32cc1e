/**
 * The client's behaviour as values: its configuration, the content of the
 * shared static cache, what `get` returns and sends, how a successful `set` or
 * `delete` changes the cache, how a key listing is read, and what the cold fill
 * and the batch operations leave in the cache.  The class in module
 * ReplDbClient performs these steps in place and is proved against them.
 *
 * Every HTTP send is an oracle: the server's answer is a `Reply` given as a
 * parameter, `Ok(body)` when `httpClient.send` returned and `Fail` when it threw.
 */
module StoreSemantics {
  import opened Wrappers
  import opened FormCodec

  datatype Reply = Ok(body: Bytes) | Fail

  /** A request as built; a POST carries the pair `getPostData` serializes into its body. */
  datatype Request = HttpGet(uri: Bytes) | HttpPost(uri: Bytes, key: Bytes, value: Bytes) | HttpDelete(uri: Bytes)

  /** The body a POST puts on the wire: `encode(key)=encode(value)`. */
  function PostBody(r: Request): Bytes
    requires r.HttpPost?
  {
    FormBody(r.key, r.value)
  }

  /** The exceptions that escape the client's methods. */
  datatype Thrown = IllegalArgumentException | NullPointerException

  /** A Java call's result: a returned value or an escaping exception. */
  datatype Outcome<T> = Returned(value: T) | Threw(exc: Thrown)

  /** Which of the two copies of the class a client was built from. */
  datatype Generation = Legacy | Current

  /** The client's final fields. */
  datatype Config = Config(url: Bytes, encoded: bool, cached: bool, generation: Generation)

  /** The static map: encoded key to value, where a value may be null. */
  type Entries = map<Bytes, Option<Bytes>>

  /** The static field `cache`; None is null, meaning "no cache". */
  type Cache = Option<Entries>

  /** What a `get` returns and the request it sends, if any. */
  datatype Fetch = Fetch(outcome: Outcome<Option<Bytes>>, sent: Option<Request>)

  const SLASH: Bytes := [47]
  const NEWLINE: Byte := 10
  /** The query `?prefix=`. */
  const PREFIX_QUERY: Bytes := [63, 112, 114, 101, 102, 105, 120, 61]

  /** A key or value as the client stores and sends it: encoded when `encoded` is set. */
  function StoredForm(cfg: Config, s: Bytes): Bytes {
    if cfg.encoded then EncodeText(Some(s)) else s
  }

  /** `encoded ? decode(raw) : raw`, where a malformed escape throws. */
  function ReadBack(cfg: Config, raw: Option<Bytes>): Outcome<Option<Bytes>> {
    if cfg.encoded then
      match DecodeText(raw)
      case Success(v) => Returned(Some(v))
      case Failure(_) => Threw(IllegalArgumentException)
    else Returned(raw)
  }

  /** What a remote GET yields: null on a failed send, else the (decoded) body. */
  function Remote(cfg: Config, reply: Reply): Outcome<Option<Bytes>> {
    match reply
    case Fail => Returned(None)
    case Ok(body) => ReadBack(cfg, Some(body))
  }

  /**
   * Whether `get(key, c)` looks at the static cache: the current copy asks for
   * the client's own `cached` flag as well, the legacy copy only for `c`.
   */
  predicate ConsultsCache(cfg: Config, c: bool) {
    c && (cfg.generation == Current ==> cfg.cached)
  }

  /** `get(key, c)`: a cache hit makes no request; otherwise one GET of url/key. */
  function Get(cfg: Config, cache: Cache, key: Bytes, c: bool, reply: Reply): (r: Fetch)
    ensures r.sent.Some? ==> r.sent.value == HttpGet(cfg.url + SLASH + StoredForm(cfg, key))
    ensures r.sent.None? <==> ConsultsCache(cfg, c) && (cache.None? || StoredForm(cfg, key) in cache.value)
    ensures r.sent.Some? ==> r.outcome == Remote(cfg, reply)
    ensures r.sent.None? ==>
      r.outcome == (if cache.None? then Threw(NullPointerException) else ReadBack(cfg, cache.value[StoredForm(cfg, key)]))
  {
    var k := StoredForm(cfg, key);
    if ConsultsCache(cfg, c) && cache.None? then
      Fetch(Threw(NullPointerException), None)
    else if ConsultsCache(cfg, c) && k in cache.value then
      Fetch(ReadBack(cfg, cache.value[k]), None)
    else
      Fetch(Remote(cfg, reply), Some(HttpGet(cfg.url + SLASH + k)))
  }

  /** The request `set(key, value)` sends: the stored forms, encoded once more by `getPostData`. */
  function SetRequest(cfg: Config, key: Bytes, value: Bytes): Request {
    HttpPost(cfg.url, StoredForm(cfg, key), StoredForm(cfg, value))
  }

  function DeleteRequest(cfg: Config, key: Bytes): Request {
    HttpDelete(cfg.url + SLASH + StoredForm(cfg, key))
  }

  /** The cache after a `set` whose POST went through: an absent key is added, a present one is kept. */
  function AfterSet(cfg: Config, cache: Cache, key: Bytes, value: Bytes): (r: Cache)
    ensures r.Some? <==> cache.Some?
    ensures cfg.cached && cache.Some? ==> StoredForm(cfg, key) in r.value
    ensures cache.Some? ==> forall k :: k in cache.value ==> k in r.value && r.value[k] == cache.value[k]
    ensures cache.Some? ==> forall k :: k in r.value && k !in cache.value ==>
      cfg.cached && k == StoredForm(cfg, key) && r.value[k] == Some(StoredForm(cfg, value))
  {
    var k := StoredForm(cfg, key);
    if cfg.cached && cache.Some? && k !in cache.value then Some(cache.value[k := Some(StoredForm(cfg, value))])
    else cache
  }

  /** The cache after a `delete` whose request went through. */
  function AfterDelete(cfg: Config, cache: Cache, key: Bytes): (r: Cache)
    ensures r.Some? <==> cache.Some?
    ensures cfg.cached && cache.Some? ==> StoredForm(cfg, key) !in r.value
    ensures cache.Some? ==> forall k :: k in r.value ==> k in cache.value && r.value[k] == cache.value[k]
    ensures cache.Some? ==> forall k :: k in cache.value && k !in r.value ==> cfg.cached && k == StoredForm(cfg, key)
  {
    var k := StoredForm(cfg, key);
    if cfg.cached && cache.Some? && k in cache.value then Some(cache.value - {k}) else cache
  }

  /** The prefix `list` filters or queries with: encoded if `encoded`, null read as "". */
  function ListPrefix(cfg: Config, prefix: Option<Bytes>): Bytes {
    if cfg.encoded then EncodeText(prefix) else prefix.GetOr([])
  }

  /** The cache keys that start with `p`. */
  function MatchingKeys(m: Entries, p: Bytes): set<Bytes> {
    set k | k in m && p <= k
  }

  function ListRequest(cfg: Config, p: Bytes): Request {
    HttpGet(cfg.url + PREFIX_QUERY + p)
  }

  /** The pieces of `s` between newlines, empty pieces included. */
  function Fields(s: Bytes): (r: seq<Bytes>)
    ensures |r| >= 1
  {
    if s == [] then [[]]
    else if s[0] == NEWLINE then [[]] + Fields(s[1..])
    else var t := Fields(s[1..]); [[s[0]] + t[0]] + t[1..]
  }

  /** The fields without the empty ones at the end: what is left ends in a non-empty field. */
  function DropTrailingEmpty(fs: seq<Bytes>): (r: seq<Bytes>)
    ensures r == [] || r[|r| - 1] != []
  {
    if fs != [] && fs[|fs| - 1] == [] then DropTrailingEmpty(fs[..|fs| - 1]) else fs
  }

  /**
   * String.split("\n"): with no newline the whole string is the one token (so ""
   * gives [""]); otherwise the fields without the trailing empty ones, so the
   * last token, if any, is never empty.
   */
  function SplitLines(s: Bytes): (r: seq<Bytes>)
    ensures NEWLINE !in s ==> r == [s]
    ensures NEWLINE in s ==> r == [] || r[|r| - 1] != []
  {
    if NEWLINE !in s then [s] else DropTrailingEmpty(Fields(s))
  }

  /** The pieces joined back with newlines. */
  function Join(fs: seq<Bytes>): Bytes {
    if fs == [] then []
    else if |fs| == 1 then fs[0]
    else fs[0] + [NEWLINE] + Join(fs[1..])
  }

  /** The keys of a listing body: decoded as a whole when `encoded`, then split on newlines. */
  function RemoteKeys(cfg: Config, body: Bytes): Outcome<seq<Bytes>> {
    if cfg.encoded then
      match DecodeText(Some(body))
      case Success(text) => Returned(SplitLines(text))
      case Failure(_) => Threw(IllegalArgumentException)
    else Returned(SplitLines(body))
  }

  /** The remote branch of `list`: null on a failed send. */
  function ListRemote(cfg: Config, reply: Reply): Outcome<Option<seq<Bytes>>> {
    match reply
    case Fail => Returned(None)
    case Ok(body) =>
      match RemoteKeys(cfg, body)
      case Returned(keys) => Returned(Some(keys))
      case Threw(e) => Threw(e)
  }

  /** The state of the static map during the cold fill, and the exception that ended it, if any. */
  datatype Fill = Fill(entries: Entries, failure: Option<Thrown>)

  /**
   * The cold fill's loop over the listed keys: `cache.put(s, this.get(s))`, where
   * `get` runs against the partly filled cache; the i-th value GET is answered by
   * `replies(i)`.
   */
  function ColdFill(cfg: Config, keys: seq<Bytes>, replies: nat -> Reply): (r: Fill)
    decreases |keys|
  {
    if keys == [] then Fill(map[], None)
    else
      var n := |keys| - 1;
      var prev := ColdFill(cfg, keys[..n], replies);
      if prev.failure.Some? then prev
      else
        match Get(cfg, Some(prev.entries), keys[n], cfg.cached, replies(n)).outcome
        case Threw(e) => Fill(prev.entries, Some(e))
        case Returned(v) => Fill(prev.entries[keys[n] := v], None)
  }

  /**
   * The whole cold fill: `list(false)`, then the loop.  A failed listing returns
   * null and the for-each over it throws a NullPointerException.
   */
  function Warm(cfg: Config, listReply: Reply, replies: nat -> Reply): Fill {
    match ListRemote(cfg, listReply)
    case Threw(e) => Fill(map[], Some(e))
    case Returned(None) => Fill(map[], Some(NullPointerException))
    case Returned(Some(keys)) => ColdFill(cfg, keys, replies)
  }

  /** The cache after `set` on each pair in turn, the i-th POST answered by `replies(i)`. */
  function AfterSets(cfg: Config, cache: Cache, pairs: seq<(Bytes, Bytes)>, replies: nat -> Reply): Cache
    decreases |pairs|
  {
    if pairs == [] then cache
    else
      var n := |pairs| - 1;
      var prev := AfterSets(cfg, cache, pairs[..n], replies);
      if replies(n).Ok? then AfterSet(cfg, prev, pairs[n].0, pairs[n].1) else prev
  }

  /** The pairs `(keys[i], values[i])` for every index both arrays have. */
  function Zip(keys: seq<Bytes>, values: seq<Bytes>): (r: seq<(Bytes, Bytes)>)
    ensures |r| == if |keys| < |values| then |keys| else |values|
    ensures forall i :: 0 <= i < |r| ==> r[i] == (keys[i], values[i])
  {
    if keys == [] || values == [] then [] else [(keys[0], values[0])] + Zip(keys[1..], values[1..])
  }

  /** The cache after `delete` on each key in turn. */
  function AfterDeletes(cfg: Config, cache: Cache, keys: seq<Bytes>, replies: nat -> Reply): Cache
    decreases |keys|
  {
    if keys == [] then cache
    else
      var n := |keys| - 1;
      var prev := AfterDeletes(cfg, cache, keys[..n], replies);
      if replies(n).Ok? then AfterDelete(cfg, prev, keys[n]) else prev
  }

  /** `s` lists every element of `keys` once and nothing else. */
  ghost predicate Enumerates(s: seq<Bytes>, keys: set<Bytes>) {
    (forall k :: k in s <==> k in keys) &&
    (forall i, j :: 0 <= i < j < |s| ==> s[i] != s[j])
  }
}
