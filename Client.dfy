/**
 * The ReplDBClient class: its URL check and cold fill at construction, and the
 * operations that read or update the static cache in place or fill result
 * arrays in loops.  Both copies of the class are modelled by one `Client`,
 * whose `cfg.generation` records which copy built it.
 */
module ReplDbClient {
  import opened Wrappers
  import opened FormCodec
  import opened StoreSemantics
  import StoreProperties

  /** The static field `ReplDBClient.cache`: one object that every client of a copy refers to. */
  class SharedCache {
    var entries: Cache

    constructor ()
      ensures entries == None
    {
      entries := None;
    }
  }

  /** The scheme and host that java.net.URI extracts from the URL; either may be null. */
  datatype UriParts = UriParts(scheme: Option<Bytes>, host: Option<Bytes>)

  /** "kv.replit.com" in ASCII. */
  const DB_HOST: Bytes := [107, 118, 46, 114, 101, 112, 108, 105, 116, 46, 99, 111, 109]
  /** "https" in ASCII. */
  const DB_SCHEME: Bytes := [104, 116, 116, 112, 115]

  /**
   * The URL check: the URL parses (`uri` is Some) and its host and scheme equal
   * the allowed ones exactly; a null host or scheme fails like a wrong one.
   */
  predicate UrlAccepted(uri: Option<UriParts>) {
    uri.Some? && uri.value.host == Some(DB_HOST) && uri.value.scheme == Some(DB_SCHEME)
  }

  /** How a constructor call ends: an instance, an exception, or the process exiting. */
  datatype Construction = Constructed(client: Client) | Failed(exc: Thrown) | Exited(status: int)

  /**
   * What a constructor call that passed the URL check leaves behind: if it was
   * the first caching client, the static cache holds the cold fill and the call
   * fails exactly when the fill did; otherwise the cache is untouched.
   */
  ghost predicate Opened(cfg: Config, shared: SharedCache, before: Cache, listReply: Reply, replies: nat -> Reply, r: Construction)
    reads shared
  {
    (r.Constructed? ==> r.client.cfg == cfg && r.client.shared == shared && r.client.Valid()) &&
    if cfg.cached && before.None? then
      var fill := Warm(cfg, listReply, replies);
      shared.entries == Some(fill.entries) &&
      (r.Constructed? <==> fill.failure.None?) &&
      (r.Failed? ==> fill.failure == Some(r.exc)) &&
      !r.Exited?
    else
      r.Constructed? && shared.entries == before
  }

  class Client {
    const cfg: Config
    const shared: SharedCache

    /** A client built with the cache on always finds the static cache non-null. */
    ghost predicate Valid()
      reads shared
    {
      cfg.cached ==> shared.entries.Some?
    }

    constructor (cfg: Config, shared: SharedCache)
      ensures this.cfg == cfg && this.shared == shared
    {
      this.cfg := cfg;
      this.shared := shared;
    }

    /** `ReplDBClient(url, cached, encoded, debug)` of the current copy: a bad URL throws. */
    static method Open(url: Bytes, uri: Option<UriParts>, cached: bool, encoded: bool, shared: SharedCache,
                       listReply: Reply, replies: nat -> Reply) returns (r: Construction)
      modifies shared
      ensures r.Constructed? ==> fresh(r.client)
      ensures !UrlAccepted(uri) ==> r == Failed(IllegalArgumentException) && shared.entries == old(shared.entries)
      ensures UrlAccepted(uri) ==> Opened(Config(url, encoded, cached, Current), shared, old(shared.entries), listReply, replies, r)
    {
      if !UrlAccepted(uri) {
        return Failed(IllegalArgumentException);
      }
      r := Build(Config(url, encoded, cached, Current), shared, listReply, replies);
    }

    /** `ReplDBClient(url, encoded, cached, debug)` of the legacy copy: a bad URL calls System.exit(1). */
    static method OpenLegacy(url: Bytes, uri: Option<UriParts>, encoded: bool, cached: bool, shared: SharedCache,
                             listReply: Reply, replies: nat -> Reply) returns (r: Construction)
      modifies shared
      ensures r.Constructed? ==> fresh(r.client)
      ensures !UrlAccepted(uri) ==> r == Exited(1) && shared.entries == old(shared.entries)
      ensures UrlAccepted(uri) ==> Opened(Config(url, encoded, cached, Legacy), shared, old(shared.entries), listReply, replies, r)
    {
      if !UrlAccepted(uri) {
        return Exited(1);
      }
      r := Build(Config(url, encoded, cached, Legacy), shared, listReply, replies);
    }

    /** The part of both constructors after the URL check. */
    static method Build(cfg: Config, shared: SharedCache, listReply: Reply, replies: nat -> Reply) returns (r: Construction)
      modifies shared
      ensures r.Constructed? ==> fresh(r.client)
      ensures Opened(cfg, shared, old(shared.entries), listReply, replies, r)
    {
      var client := new Client(cfg, shared);
      if cfg.cached && shared.entries.None? {
        var failure := client.FillCache(listReply, replies);
        if failure.Some? {
          return Failed(failure.value);
        }
      }
      r := Constructed(client);
    }

    /**
     * The cold fill: a fresh empty map becomes the static cache, then every key of
     * `list(false)` is put with `get(s)`.  It stops at the first exception, which
     * leaves what was filled so far in place.
     */
    method FillCache(listReply: Reply, replies: nat -> Reply) returns (failure: Option<Thrown>)
      requires cfg.cached && shared.entries.None?
      modifies shared
      ensures shared.entries == Some(Warm(cfg, listReply, replies).entries)
      ensures failure == Warm(cfg, listReply, replies).failure
    {
      shared.entries := Some(map[]);
      var listing, _ := List(Some([]), false, listReply);
      match listing
      case Threw(e) =>
        failure := Some(e);
      case Returned(None) =>
        failure := Some(NullPointerException);
      case Returned(Some(keys)) =>
        failure := FillFrom(keys, replies);
    }

    /** The for-each of the cold fill: `cache.put(s, get(s))` for each listed key, until a `get` throws. */
    method FillFrom(keys: seq<Bytes>, replies: nat -> Reply) returns (failure: Option<Thrown>)
      requires cfg.cached && shared.entries == Some(map[])
      modifies shared
      ensures shared.entries == Some(ColdFill(cfg, keys, replies).entries)
      ensures failure == ColdFill(cfg, keys, replies).failure
    {
      failure := None;
      var i := 0;
      while i < |keys|
        invariant 0 <= i <= |keys|
        invariant shared.entries.Some?
        invariant ColdFill(cfg, keys[..i], replies) == Fill(shared.entries.value, None)
      {
        var f := Get(cfg, shared.entries, keys[i], cfg.cached, replies(i));
        assert keys[..i + 1][..i] == keys[..i];
        if f.outcome.Threw? {
          failure := Some(f.outcome.exc);
          assert ColdFill(cfg, keys[..i + 1], replies).failure == failure;
          StoreProperties.ColdFillStopsAtFailure(cfg, keys, replies, i + 1);
          return;
        }
        shared.entries := Some(shared.entries.value[keys[i] := f.outcome.value]);
        i := i + 1;
      }
      assert keys[..i] == keys;
    }

    /**
     * `list(prefix, c)`: with `c` and a non-null static cache, the cache keys that
     * start with the prefix, collected in a loop in no particular order; otherwise
     * one GET of `url?prefix=…`, null when it fails.
     */
    method List(prefix: Option<Bytes>, c: bool, reply: Reply) returns (r: Outcome<Option<seq<Bytes>>>, sent: Option<Request>)
      ensures c && shared.entries.Some? ==>
        sent == None && r.Returned? && r.value.Some? &&
        Enumerates(r.value.value, MatchingKeys(shared.entries.value, ListPrefix(cfg, prefix)))
      ensures !(c && shared.entries.Some?) ==>
        sent == Some(ListRequest(cfg, ListPrefix(cfg, prefix))) && r == ListRemote(cfg, reply)
    {
      var p := ListPrefix(cfg, prefix);
      if c && shared.entries.Some? {
        var m := shared.entries.value;
        var remaining := m.Keys;
        var found: seq<Bytes> := [];
        while remaining != {}
          invariant remaining <= m.Keys
          invariant forall k :: k in found <==> k in m && k !in remaining && p <= k
          invariant forall i, j :: 0 <= i < j < |found| ==> found[i] != found[j]
          decreases remaining
        {
          var k :| k in remaining;
          if p <= k {
            found := found + [k];
          }
          remaining := remaining - {k};
        }
        r, sent := Returned(Some(found)), None;
      } else {
        r, sent := ListRemote(cfg, reply), Some(ListRequest(cfg, p));
      }
    }

    /** `get(cached, keys...)`: `get(keys[i], cached)` for each position in order; an exception aborts. */
    method GetAll(c: bool, keys: seq<Bytes>, replies: nat -> Reply) returns (r: Outcome<array<Option<Bytes>>>)
      ensures r.Returned? <==> forall j :: 0 <= j < |keys| ==> Get(cfg, shared.entries, keys[j], c, replies(j)).outcome.Returned?
      ensures r.Returned? ==> fresh(r.value) && r.value.Length == |keys|
      ensures r.Returned? ==>
        forall j :: 0 <= j < |keys| ==> Get(cfg, shared.entries, keys[j], c, replies(j)).outcome == Returned(r.value[j])
      ensures r.Threw? ==>
        exists j :: 0 <= j < |keys| && Get(cfg, shared.entries, keys[j], c, replies(j)).outcome == Threw(r.exc) &&
                    (forall i :: 0 <= i < j ==> Get(cfg, shared.entries, keys[i], c, replies(i)).outcome.Returned?)
    {
      var values := new Option<Bytes>[|keys|];
      var i := 0;
      while i < |keys|
        invariant 0 <= i <= |keys|
        invariant forall j :: 0 <= j < i ==> Get(cfg, shared.entries, keys[j], c, replies(j)).outcome == Returned(values[j])
      {
        var f := Get(cfg, shared.entries, keys[i], c, replies(i));
        if f.outcome.Threw? {
          return Threw(f.outcome.exc);
        }
        values[i] := f.outcome.value;
        i := i + 1;
      }
      r := Returned(values);
    }

    /**
     * `set(key, value)`: one POST of `encode(k)=encode(v)` where k and v are the
     * stored forms; on success a key absent from the cache is added.
     */
    method Set(key: Bytes, value: Bytes, reply: Reply) returns (ok: bool, sent: Request)
      requires Valid()
      modifies shared
      ensures Valid()
      ensures sent == SetRequest(cfg, key, value)
      ensures ok == reply.Ok?
      ensures shared.entries == if ok then AfterSet(cfg, old(shared.entries), key, value) else old(shared.entries)
    {
      var k, v := key, value;
      if cfg.encoded {
        k, v := EncodeText(Some(key)), EncodeText(Some(value));
      }
      sent := HttpPost(cfg.url, k, v);
      if reply.Fail? {
        return false, sent;
      }
      if cfg.cached && k !in shared.entries.value {
        shared.entries := Some(shared.entries.value[k := Some(v)]);
      }
      ok := true;
    }

    /** `set(keys, values)`: `set` on each index both arrays have, in order; surplus elements are ignored. */
    method SetAll(keys: seq<Bytes>, values: seq<Bytes>, replies: nat -> Reply) returns (r: array<bool>)
      requires Valid()
      modifies shared
      ensures Valid() && fresh(r)
      ensures r.Length == (if |keys| < |values| then |keys| else |values|)
      ensures forall j :: 0 <= j < r.Length ==> r[j] == replies(j).Ok?
      ensures shared.entries == AfterSets(cfg, old(shared.entries), Zip(keys, values), replies)
    {
      r := SetEach(Zip(keys, values), replies);
    }

    /**
     * `set(pairs)`: `set` on each entry of the map in the order its entry-set
     * iterator yields them, which is left open and returned as `order`.
     */
    method SetMap(pairs: map<Bytes, Bytes>, replies: nat -> Reply) returns (r: array<bool>, order: seq<Bytes>)
      requires Valid()
      modifies shared
      ensures Valid() && fresh(r)
      ensures Enumerates(order, pairs.Keys)
      ensures r.Length == |pairs| == |order|
      ensures forall j :: 0 <= j < r.Length ==> r[j] == replies(j).Ok?
      ensures shared.entries == AfterSets(cfg, old(shared.entries), PairsInOrder(pairs, order), replies)
    {
      order := Iterate(pairs.Keys);
      r := SetEach(PairsInOrder(pairs, order), replies);
    }

    /** The loop both batch `set`s run: `set` on each pair in turn, the outcome of the i-th in `r[i]`. */
    method SetEach(pairs: seq<(Bytes, Bytes)>, replies: nat -> Reply) returns (r: array<bool>)
      requires Valid()
      modifies shared
      ensures Valid() && fresh(r)
      ensures r.Length == |pairs|
      ensures forall j :: 0 <= j < r.Length ==> r[j] == replies(j).Ok?
      ensures shared.entries == AfterSets(cfg, old(shared.entries), pairs, replies)
    {
      r := new bool[|pairs|];
      var i := 0;
      while i < r.Length
        invariant 0 <= i <= r.Length && Valid()
        invariant forall j :: 0 <= j < i ==> r[j] == replies(j).Ok?
        invariant shared.entries == AfterSets(cfg, old(shared.entries), pairs[..i], replies)
      {
        assert pairs[..i + 1][..i] == pairs[..i];
        var ok, _ := Set(pairs[i].0, pairs[i].1, replies(i));
        r[i] := ok;
        i := i + 1;
      }
      assert pairs[..i] == pairs;
    }

    /** The order a `HashMap` key-set iterator visits `keys` in: each key once, the order left open. */
    static method Iterate(keys: set<Bytes>) returns (order: seq<Bytes>)
      ensures Enumerates(order, keys) && |order| == |keys|
    {
      var remaining := keys;
      order := [];
      while remaining != {}
        invariant remaining <= keys && |order| + |remaining| == |keys|
        invariant Enumerates(order, keys - remaining)
        decreases remaining
      {
        var k :| k in remaining;
        order := order + [k];
        remaining := remaining - {k};
      }
    }

    /** The entries of `pairs` in the order `order` lists their keys. */
    static function PairsInOrder(pairs: map<Bytes, Bytes>, order: seq<Bytes>): (r: seq<(Bytes, Bytes)>)
      requires forall k :: k in order ==> k in pairs
      ensures |r| == |order| && forall j :: 0 <= j < |order| ==> r[j] == (order[j], pairs[order[j]])
    {
      if order == [] then [] else [(order[0], pairs[order[0]])] + PairsInOrder(pairs, order[1..])
    }

    /** `delete(key)`: one DELETE of url/key; on success the stored key leaves the cache. */
    method Delete(key: Bytes, reply: Reply) returns (ok: bool, sent: Request)
      requires Valid()
      modifies shared
      ensures Valid()
      ensures sent == DeleteRequest(cfg, key)
      ensures ok == reply.Ok?
      ensures shared.entries == if ok then AfterDelete(cfg, old(shared.entries), key) else old(shared.entries)
    {
      var k := if cfg.encoded then EncodeText(Some(key)) else key;
      sent := HttpDelete(cfg.url + SLASH + k);
      if reply.Fail? {
        return false, sent;
      }
      if cfg.cached && k in shared.entries.value {
        shared.entries := Some(shared.entries.value - {k});
      }
      ok := true;
    }

    /** `delete(keys...)`: `delete` on each key in order. */
    method DeleteAll(keys: seq<Bytes>, replies: nat -> Reply) returns (r: array<bool>)
      requires Valid()
      modifies shared
      ensures Valid() && fresh(r)
      ensures r.Length == |keys|
      ensures forall j :: 0 <= j < r.Length ==> r[j] == replies(j).Ok?
      ensures shared.entries == AfterDeletes(cfg, old(shared.entries), keys, replies)
    {
      r := new bool[|keys|];
      var i := 0;
      while i < |keys|
        invariant 0 <= i <= |keys| && Valid()
        invariant forall j :: 0 <= j < i ==> r[j] == replies(j).Ok?
        invariant shared.entries == AfterDeletes(cfg, old(shared.entries), keys[..i], replies)
      {
        assert keys[..i + 1][..i] == keys[..i];
        var ok, _ := Delete(keys[i], replies(i));
        r[i] := ok;
        i := i + 1;
      }
      assert keys[..i] == keys;
    }

    /**
     * `empty()`: `delete(list())`, the listing taken once beforehand.  A failed
     * remote listing is null, and passing it as the key array throws.
     */
    method Empty(listReply: Reply, replies: nat -> Reply) returns (r: Outcome<array<bool>>, ghost listed: seq<Bytes>)
      requires Valid()
      modifies shared
      ensures Valid()
      ensures cfg.cached ==> r.Returned? && Enumerates(listed, old(shared.entries).value.Keys)
      ensures !cfg.cached && ListRemote(cfg, listReply).Returned? && ListRemote(cfg, listReply).value.Some? ==>
        r.Returned? && listed == ListRemote(cfg, listReply).value.value
      ensures !cfg.cached && ListRemote(cfg, listReply) == Returned(None) ==> r == Threw(NullPointerException)
      ensures !cfg.cached && ListRemote(cfg, listReply).Threw? ==> r == Threw(ListRemote(cfg, listReply).exc)
      ensures r.Returned? ==>
        fresh(r.value) && r.value.Length == |listed| &&
        (forall j :: 0 <= j < |listed| ==> r.value[j] == replies(j).Ok?) &&
        shared.entries == AfterDeletes(cfg, old(shared.entries), listed, replies)
      ensures r.Threw? ==> shared.entries == old(shared.entries)
    {
      var listing, _ := List(Some([]), cfg.cached, listReply);
      listed := [];
      match listing
      case Threw(e) =>
        r := Threw(e);
      case Returned(None) =>
        r := Threw(NullPointerException);
      case Returned(Some(keys)) =>
        listed := keys;
        var done := DeleteAll(keys, replies);
        r := Returned(done);
    }
  }
}
