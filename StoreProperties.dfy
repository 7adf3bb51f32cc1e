/** What the cache, `get`, the listing and the batch operations promise, as lemmas over StoreSemantics. */
module StoreProperties {
  import opened Wrappers
  import opened FormCodec
  import opened StoreSemantics

  /** A value that `set` wrote into the cache reads back, decoded, with no request. */
  lemma SetThenGetHits(cfg: Config, cache: Cache, key: Bytes, value: Bytes, reply: Reply)
    requires cfg.cached && cache.Some? && StoredForm(cfg, key) !in cache.value
    ensures Get(cfg, AfterSet(cfg, cache, key, value), key, true, reply) == Fetch(Returned(Some(value)), None)
  {
    DecodeTextEncodeText(Some(value));
  }

  /** Write-once: a `set` of a key already in the cache changes nothing that `get` or `list` sees. */
  lemma SetKeepsFirstValue(cfg: Config, cache: Cache, key: Bytes, value: Bytes)
    requires cache.Some? && StoredForm(cfg, key) in cache.value
    ensures AfterSet(cfg, cache, key, value) == cache
  {
  }

  /** After a successful `delete` in cached mode, `get` goes to the server and `list` no longer shows the key. */
  lemma DeleteThenGetIsRemote(cfg: Config, cache: Cache, key: Bytes, c: bool, reply: Reply, p: Bytes)
    requires cfg.cached && cache.Some?
    ensures Get(cfg, AfterDelete(cfg, cache, key), key, c, reply).sent == Some(HttpGet(cfg.url + SLASH + StoredForm(cfg, key)))
    ensures MatchingKeys(AfterDelete(cfg, cache, key).value, p) == MatchingKeys(cache.value, p) - {StoredForm(cfg, key)}
  {
  }

  /** A current-copy client built without the cache sends a GET for every `get`, whatever the shared cache holds. */
  lemma UncachedGetAlwaysRemote(cfg: Config, cache: Cache, key: Bytes, c: bool, reply: Reply)
    requires cfg.generation == Current && !cfg.cached
    ensures Get(cfg, cache, key, c, reply) == Fetch(Remote(cfg, reply), Some(HttpGet(cfg.url + SLASH + StoredForm(cfg, key))))
  {
  }

  /**
   * In the legacy copy `get(key, true)` reads the static cache even when this
   * client was built uncached: a null cache throws, a hit on another client's
   * cache answers without a request.
   */
  lemma LegacyGetConsultsSharedCache(cfg: Config, cache: Cache, key: Bytes, reply: Reply)
    requires cfg.generation == Legacy
    ensures cache.None? ==> Get(cfg, cache, key, true, reply).outcome == Threw(NullPointerException)
    ensures cache.Some? && StoredForm(cfg, key) in cache.value ==>
      Get(cfg, cache, key, true, reply) == Fetch(ReadBack(cfg, cache.value[StoredForm(cfg, key)]), None)
  {
  }

  /** A current-copy client whose own cache exists never dereferences a null cache in `get`. */
  lemma CurrentGetNeverNullPointer(cfg: Config, cache: Cache, key: Bytes, c: bool, reply: Reply)
    requires cfg.generation == Current && (cfg.cached ==> cache.Some?)
    ensures Get(cfg, cache, key, c, reply).outcome != Threw(NullPointerException)
  {
  }

  /**
   * End to end through the server: the POST body parses back to the stored key
   * and value, the GET and DELETE address that stored key, and a GET answered
   * with the stored value returns the original value.
   */
  lemma RemoteRoundTrip(cfg: Config, key: Bytes, value: Bytes, cache: Cache, c: bool, reply: Reply)
    ensures ParsePair(PostBody(SetRequest(cfg, key, value))) == Success((StoredForm(cfg, key), StoredForm(cfg, value)))
    ensures DeleteRequest(cfg, key).uri == cfg.url + SLASH + ParsePair(PostBody(SetRequest(cfg, key, value))).value.0
    ensures Get(cfg, cache, key, c, reply).sent.Some? ==>
      Get(cfg, cache, key, c, reply).sent.value == HttpGet(DeleteRequest(cfg, key).uri)
    ensures Remote(cfg, Ok(StoredForm(cfg, value))) == Returned(Some(value))
  {
    ParseFormBody(StoredForm(cfg, key), StoredForm(cfg, value));
    DecodeTextEncodeText(Some(value));
  }

  /** The cold fill leaves in the cache exactly the listed keys it got through. */
  lemma {:induction false} ColdFillKeys(cfg: Config, keys: seq<Bytes>, replies: nat -> Reply)
    ensures ColdFill(cfg, keys, replies).entries.Keys <= set k | k in keys
    ensures ColdFill(cfg, keys, replies).failure.None? ==> ColdFill(cfg, keys, replies).entries.Keys == set k | k in keys
  {
    if keys != [] {
      var n := |keys| - 1;
      ColdFillKeys(cfg, keys[..n], replies);
      ColdFillStep(cfg, keys, replies);
      assert keys == keys[..n] + [keys[n]];
      assert (set k | k in keys) == (set k | k in keys[..n]) + {keys[n]};
    }
  }

  /** One step of the cold fill caches at most the last key, and does so unless its `get` throws. */
  lemma ColdFillStep(cfg: Config, keys: seq<Bytes>, replies: nat -> Reply)
    requires keys != []
    ensures var prev, r := ColdFill(cfg, keys[..|keys| - 1], replies), ColdFill(cfg, keys, replies);
      r.entries.Keys <= prev.entries.Keys + {keys[|keys| - 1]} &&
      (r.failure.None? ==> prev.failure.None? && r.entries.Keys == prev.entries.Keys + {keys[|keys| - 1]})
  {
  }

  /**
   * When no listed key repeats and none is hit in the partly filled cache, the
   * cold fill maps each listed key to what its own remote GET yielded, null when
   * that GET failed.
   */
  lemma ColdFillRemote(cfg: Config, keys: seq<Bytes>, replies: nat -> Reply)
    requires forall i, j :: 0 <= i < j < |keys| ==> keys[i] != keys[j]
    requires forall j :: 0 <= j < |keys| ==> StoredForm(cfg, keys[j]) !in keys[..j]
    ensures ColdFill(cfg, keys, replies).failure.None? ==>
      forall j :: 0 <= j < |keys| ==>
        keys[j] in ColdFill(cfg, keys, replies).entries &&
        Returned(ColdFill(cfg, keys, replies).entries[keys[j]]) == Remote(cfg, replies(j))
  {
    if ColdFill(cfg, keys, replies).failure.None? {
      forall j | 0 <= j < |keys|
        ensures keys[j] in ColdFill(cfg, keys, replies).entries &&
          Returned(ColdFill(cfg, keys, replies).entries[keys[j]]) == Remote(cfg, replies(j))
      {
        ColdFillRemoteAt(cfg, keys, replies, j);
      }
    }
  }

  /** `ColdFillRemote` for one position `j`, by induction on the listed keys. */
  lemma {:induction false} ColdFillRemoteAt(cfg: Config, keys: seq<Bytes>, replies: nat -> Reply, j: nat)
    requires forall a, b :: 0 <= a < b < |keys| ==> keys[a] != keys[b]
    requires forall a :: 0 <= a < |keys| ==> StoredForm(cfg, keys[a]) !in keys[..a]
    requires j < |keys| && ColdFill(cfg, keys, replies).failure.None?
    ensures keys[j] in ColdFill(cfg, keys, replies).entries
    ensures Returned(ColdFill(cfg, keys, replies).entries[keys[j]]) == Remote(cfg, replies(j))
  {
    var n := |keys| - 1;
    ColdFillMiss(cfg, keys, replies);
    if j < n {
      var prefix := keys[..n];
      forall a | 0 <= a < |prefix| ensures StoredForm(cfg, prefix[a]) !in prefix[..a] {
        assert prefix[..a] == keys[..a];
      }
      ColdFillRemoteAt(cfg, prefix, replies, j);
      assert prefix[j] == keys[j] != keys[n];
    }
  }

  /** One step of the cold fill whose key misses the cache: the key maps to what its remote GET yielded. */
  lemma ColdFillMiss(cfg: Config, keys: seq<Bytes>, replies: nat -> Reply)
    requires keys != []
    requires StoredForm(cfg, keys[|keys| - 1]) !in keys[..|keys| - 1]
    requires ColdFill(cfg, keys, replies).failure.None?
    ensures ColdFill(cfg, keys[..|keys| - 1], replies).failure.None?
    ensures Remote(cfg, replies(|keys| - 1)).Returned?
    ensures ColdFill(cfg, keys, replies).entries ==
      ColdFill(cfg, keys[..|keys| - 1], replies).entries[keys[|keys| - 1] := Remote(cfg, replies(|keys| - 1)).value]
  {
    var n := |keys| - 1;
    ColdFillKeys(cfg, keys[..n], replies);
    var prev := ColdFill(cfg, keys[..n], replies);
    assert StoredForm(cfg, keys[n]) !in prev.entries;
  }

  /**
   * Without encoding, a key whose value GET failed during the cold fill is cached
   * as null, and every later `get(key)` answers null from the cache with no request.
   */
  lemma FailedFillPinsNull(cfg: Config, keys: seq<Bytes>, replies: nat -> Reply, j: nat, reply: Reply)
    requires !cfg.encoded && cfg.cached
    requires forall a, b :: 0 <= a < b < |keys| ==> keys[a] != keys[b]
    requires j < |keys| && replies(j).Fail?
    requires ColdFill(cfg, keys, replies).failure.None?
    ensures Get(cfg, Some(ColdFill(cfg, keys, replies).entries), keys[j], true, reply) == Fetch(Returned(None), None)
  {
    forall i | 0 <= i < |keys| ensures StoredForm(cfg, keys[i]) !in keys[..i] {
      forall a | 0 <= a < i ensures keys[..i][a] != keys[i] {
        assert keys[..i][a] == keys[a];
      }
    }
    ColdFillRemote(cfg, keys, replies);
  }

  /**
   * An empty store lists as the single key "" (an empty listing is split into
   * [""]), so the cold fill caches "" with whatever its GET yielded, null when
   * that GET failed; only a body that fails to decode stops it.
   */
  lemma EmptyStoreCachesEmptyKey(cfg: Config, replies: nat -> Reply)
    ensures Remote(cfg, replies(0)).Returned? ==>
      Warm(cfg, Ok([]), replies) == Fill(map[[] := Remote(cfg, replies(0)).value], None)
    ensures Remote(cfg, replies(0)).Threw? ==>
      Warm(cfg, Ok([]), replies) == Fill(map[], Some(Remote(cfg, replies(0)).exc))
  {
    assert SplitLines([]) == [[]];
    assert RemoteKeys(cfg, []) == Returned([[]]);
    var keys: seq<Bytes> := [[]];
    assert keys[..0] == [];
  }

  /**
   * A store holding a=1 and b=2, listed as "a\nb" and read without encoding:
   * the cold fill caches both, and `get("a")` then answers "1" with no request.
   */
  lemma ColdFillScenario(cfg: Config, replies: nat -> Reply, reply: Reply)
    requires !cfg.encoded && cfg.cached && replies(0) == Ok([49]) && replies(1) == Ok([50])
    ensures Warm(cfg, Ok([97, NEWLINE, 98]), replies) == Fill(map[[97] := Some([49]), [98] := Some([50])], None)
    ensures Get(cfg, Some(map[[97] := Some([49]), [98] := Some([50])]), [97], true, reply) == Fetch(Returned(Some([49])), None)
  {
    var body: Bytes := [97, NEWLINE, 98];
    assert Fields(body) == [[97], [98]] by {
      var t: seq<Bytes> := [[]];
      assert Fields(body[3..]) == t;
      assert Fields(body[2..]) == [[98] + t[0]] + t[1..];
      assert [98 as Byte] + t[0] == [98];
      var u := Fields(body[1..]);
      assert u == [[]] + Fields(body[2..]);
      assert u[0] == [] && u[1..] == [[98]];
      assert Fields(body) == [[97] + u[0]] + u[1..];
      assert [97 as Byte] + u[0] == [97];
    }
    assert SplitLines(body) == [[97], [98]] by {
      assert body[1] == NEWLINE;
    }
    var keys: seq<Bytes> := [[97], [98]];
    assert keys[..1][..0] == [];
    assert ColdFill(cfg, keys[..1], replies) == Fill(map[[97] := Some([49])], None);
  }

  /**
   * The cold fill stores the decoded listed key "a b", but `get`, `set` and
   * `delete` use the encoded "a+b": `get("a b")` misses the filled entry, and a
   * `set("a b", v)` adds a second entry for the same remote key.
   */
  lemma ColdFillKeysAreDecoded(cfg: Config, replies: nat -> Reply, reply: Reply, value: Bytes)
    requires cfg.encoded && cfg.cached && replies(0) == Ok([49])
    ensures Warm(cfg, Ok([97, PLUS, 98]), replies) == Fill(map[[97, SPACE, 98] := Some([49])], None)
    ensures Get(cfg, Some(map[[97, SPACE, 98] := Some([49])]), [97, SPACE, 98], true, reply).sent.Some?
    ensures AfterSet(cfg, Some(map[[97, SPACE, 98] := Some([49])]), [97, SPACE, 98], value).value.Keys ==
      {[97, SPACE, 98], [97, PLUS, 98]}
  {
    var raw: Bytes := [97, SPACE, 98];
    var wire: Bytes := [97, PLUS, 98];
    assert Encode(raw) == wire by {
      assert Encode(raw) == [97] + Encode(raw[1..]);
      assert Encode(raw[1..]) == [PLUS] + Encode(raw[2..]);
      assert Encode(raw[2..]) == [98] + Encode(raw[3..]);
    }
    DecodeEncode(raw);
    assert SplitLines(raw) == [raw];
    assert RemoteKeys(cfg, wire) == Returned([raw]);
    assert Remote(cfg, Ok([49])) == Returned(Some([49])) by {
      assert Decode([49]) == Prepend(49, Decode([]));
      assert [49 as Byte] + [] == [49];
    }
    assert [raw][..0] == [];
    assert ColdFill(cfg, [raw], replies) == Fill(map[raw := Some([49])], None);
  }

  /**
   * In encoded mode the cold fill caches the value `get` already decoded, and a
   * later hit decodes it again: a stored "50%25" is cached as "50%", and `get("a")`
   * then throws IllegalArgumentException.
   */
  lemma ColdFillValuesDecodedTwice(cfg: Config, replies: nat -> Reply, reply: Reply)
    requires cfg.encoded && cfg.cached && replies(0) == Ok([53, 48, PERCENT, 50, 53])
    ensures Warm(cfg, Ok([97]), replies) == Fill(map[[97] := Some([53, 48, PERCENT])], None)
    ensures Get(cfg, Some(map[[97] := Some([53, 48, PERCENT])]), [97], true, reply) ==
      Fetch(Threw(IllegalArgumentException), None)
  {
    var key: Bytes := [97];
    assert Encode(key) == key by {
      assert Encode(key) == [97] + Encode(key[1..]);
    }
    DecodeEncode(key);
    assert SplitLines(key) == [key];
    assert RemoteKeys(cfg, key) == Returned([key]);
    DecodeIsNotIdempotent();
    assert Remote(cfg, replies(0)) == Returned(Some([53, 48, PERCENT]));
    var keys: seq<Bytes> := [key];
    assert keys[..0] == [];
    assert ColdFill(cfg, keys, replies) == Fill(map[key := Some([53, 48, PERCENT])], None);
  }

  /** Once a step of the cold fill throws, the later listed keys are never fetched. */
  lemma {:induction false} ColdFillStopsAtFailure(cfg: Config, keys: seq<Bytes>, replies: nat -> Reply, n: nat)
    requires n <= |keys| && ColdFill(cfg, keys[..n], replies).failure.Some?
    ensures ColdFill(cfg, keys, replies) == ColdFill(cfg, keys[..n], replies)
    decreases |keys| - n
  {
    if n == |keys| {
      assert keys[..n] == keys;
    } else {
      var m := |keys| - 1;
      assert keys[..m][..n] == keys[..n];
      ColdFillStopsAtFailure(cfg, keys[..m], replies, n);
    }
  }

  /** Joining the newline-separated fields gives back the text. */
  lemma {:induction false} FieldsJoin(s: Bytes)
    ensures Join(Fields(s)) == s
  {
    if s != [] {
      FieldsJoin(s[1..]);
      var t := Fields(s[1..]);
      if s[0] == NEWLINE {
        JoinCons([], t);
      } else {
        JoinPrepend(s[0], t);
      }
      assert s == [s[0]] + s[1..];
    }
  }

  lemma JoinCons(f: Bytes, rest: seq<Bytes>)
    requires rest != []
    ensures Join([f] + rest) == f + [NEWLINE] + Join(rest)
  {
    assert ([f] + rest)[1..] == rest;
  }

  /** A byte put in front of the first field is put in front of the joined text. */
  lemma JoinPrepend(b: Byte, t: seq<Bytes>)
    requires t != []
    ensures Join([[b] + t[0]] + t[1..]) == [b] + Join(t)
  {
    if |t| > 1 {
      JoinCons([b] + t[0], t[1..]);
      JoinCons(t[0], t[1..]);
      assert t == [t[0]] + t[1..];
    }
  }

  /** No field holds a newline. */
  lemma {:induction false} FieldsHaveNoNewline(s: Bytes)
    ensures forall i :: 0 <= i < |Fields(s)| ==> NEWLINE !in Fields(s)[i]
  {
    if s != [] {
      FieldsHaveNoNewline(s[1..]);
      var t := Fields(s[1..]);
      var r := Fields(s);
      if s[0] == NEWLINE {
        assert r[1..] == t;
      } else {
        assert r == [[s[0]] + t[0]] + t[1..];
        forall i | 0 <= i < |r| ensures NEWLINE !in r[i] {
          if i > 0 {
            assert r[i] == t[i];
          }
        }
      }
    }
  }

  lemma {:induction false} DropTrailingEmptyPrefix(fs: seq<Bytes>)
    ensures DropTrailingEmpty(fs) <= fs
    ensures forall i :: |DropTrailingEmpty(fs)| <= i < |fs| ==> fs[i] == []
  {
    if fs != [] && fs[|fs| - 1] == [] {
      DropTrailingEmptyPrefix(fs[..|fs| - 1]);
    }
  }

  /**
   * `split("\n")` loses nothing but trailing empty fields: its tokens are the
   * leading fields of the text, the dropped fields are empty, and no token
   * holds a newline.
   */
  lemma SplitLinesKeepsContent(s: Bytes)
    ensures NEWLINE in s ==> SplitLines(s) <= Fields(s)
    ensures NEWLINE in s ==> forall i :: |SplitLines(s)| <= i < |Fields(s)| ==> Fields(s)[i] == []
    ensures NEWLINE !in s ==> SplitLines(s) == [s]
    ensures forall i :: 0 <= i < |SplitLines(s)| ==> NEWLINE !in SplitLines(s)[i]
  {
    FieldsHaveNoNewline(s);
    DropTrailingEmptyPrefix(Fields(s));
    if NEWLINE in s {
      forall i | 0 <= i < |SplitLines(s)| ensures NEWLINE !in SplitLines(s)[i] {
        assert SplitLines(s)[i] == Fields(s)[i];
      }
    }
  }

  /**
   * The listing is decoded before it is split, so an encoded key that holds a
   * newline comes back as several keys and never as itself.
   */
  lemma EncodedNewlineSplits(cfg: Config, key: Bytes)
    requires cfg.encoded && NEWLINE in key
    ensures RemoteKeys(cfg, EncodeText(Some(key))) == Returned(SplitLines(key))
    ensures key !in SplitLines(key)
  {
    DecodeTextEncodeText(Some(key));
    SplitLinesKeepsContent(key);
  }

  /** The stored forms of the keys whose request got through. */
  function Succeeded(cfg: Config, keys: seq<Bytes>, replies: nat -> Reply): set<Bytes> {
    set j | 0 <= j < |keys| && replies(j).Ok? :: StoredForm(cfg, keys[j])
  }

  function KeysOf(pairs: seq<(Bytes, Bytes)>): (r: seq<Bytes>)
    ensures |r| == |pairs| && forall j :: 0 <= j < |pairs| ==> r[j] == pairs[j].0
  {
    if pairs == [] then [] else [pairs[0].0] + KeysOf(pairs[1..])
  }

  /**
   * A batch `set` in cached mode adds the stored key of every pair whose POST got
   * through, each pair on its own, and leaves every earlier entry as it was.
   */
  lemma {:induction false} AfterSetsKeys(cfg: Config, cache: Cache, pairs: seq<(Bytes, Bytes)>, replies: nat -> Reply)
    requires cache.Some?
    ensures AfterSets(cfg, cache, pairs, replies).Some?
    ensures AfterSets(cfg, cache, pairs, replies).value.Keys ==
      cache.value.Keys + (if cfg.cached then Succeeded(cfg, KeysOf(pairs), replies) else {})
    ensures forall k :: k in cache.value ==> AfterSets(cfg, cache, pairs, replies).value[k] == cache.value[k]
  {
    if pairs != [] {
      var n := |pairs| - 1;
      AfterSetsKeys(cfg, cache, pairs[..n], replies);
      assert KeysOf(pairs)[..n] == KeysOf(pairs[..n]);
      SucceededStep(cfg, KeysOf(pairs), replies);
      AfterSetKeys(cfg, AfterSets(cfg, cache, pairs[..n], replies), pairs[n].0, pairs[n].1);
    }
  }

  /** A `set` that went through adds its stored key in cached mode, and no other key. */
  lemma AfterSetKeys(cfg: Config, cache: Cache, key: Bytes, value: Bytes)
    requires cache.Some?
    ensures AfterSet(cfg, cache, key, value).value.Keys ==
      cache.value.Keys + (if cfg.cached then {StoredForm(cfg, key)} else {})
  {
  }

  /** The stored keys that succeeded grow by the last key exactly when its request got through. */
  lemma SucceededStep(cfg: Config, keys: seq<Bytes>, replies: nat -> Reply)
    requires keys != []
    ensures Succeeded(cfg, keys, replies) ==
      Succeeded(cfg, keys[..|keys| - 1], replies) + (if replies(|keys| - 1).Ok? then {StoredForm(cfg, keys[|keys| - 1])} else {})
  {
    var n := |keys| - 1;
    var ks' := keys[..n];
    forall k | k in Succeeded(cfg, keys, replies)
      ensures k in Succeeded(cfg, ks', replies) + (if replies(n).Ok? then {StoredForm(cfg, keys[n])} else {})
    {
      var j :| 0 <= j < |keys| && replies(j).Ok? && k == StoredForm(cfg, keys[j]);
      if j < n {
        assert ks'[j] == keys[j];
      }
    }
    forall k | k in Succeeded(cfg, ks', replies) ensures k in Succeeded(cfg, keys, replies) {
      var j :| 0 <= j < |ks'| && replies(j).Ok? && k == StoredForm(cfg, ks'[j]);
      assert keys[j] == ks'[j];
    }
    if replies(n).Ok? {
      assert StoredForm(cfg, keys[n]) in Succeeded(cfg, keys, replies);
    }
  }

  /**
   * Write-once across a batch: in cached mode a stored key absent before the batch
   * ends up holding the stored value of the first pair with that stored key whose
   * POST went through; later pairs with the same stored key change nothing.
   */
  lemma {:induction false} AfterSetsFirstWins(cfg: Config, cache: Cache, pairs: seq<(Bytes, Bytes)>, replies: nat -> Reply, j: nat)
    requires cfg.cached && cache.Some? && j < |pairs| && replies(j).Ok?
    requires StoredForm(cfg, pairs[j].0) !in cache.value
    requires forall i :: 0 <= i < j && replies(i).Ok? ==> StoredForm(cfg, pairs[i].0) != StoredForm(cfg, pairs[j].0)
    ensures AfterSets(cfg, cache, pairs, replies).Some?
    ensures StoredForm(cfg, pairs[j].0) in AfterSets(cfg, cache, pairs, replies).value
    ensures AfterSets(cfg, cache, pairs, replies).value[StoredForm(cfg, pairs[j].0)] == Some(StoredForm(cfg, pairs[j].1))
    decreases |pairs|
  {
    var n := |pairs| - 1;
    var k := StoredForm(cfg, pairs[j].0);
    var front := pairs[..n];
    AfterSetsKeys(cfg, cache, front, replies);
    if j < n {
      assert front[j] == pairs[j];
      forall i | 0 <= i < j && replies(i).Ok? ensures StoredForm(cfg, front[i].0) != k {
        assert front[i] == pairs[i];
      }
      AfterSetsFirstWins(cfg, cache, front, replies, j);
    } else {
      var ks := KeysOf(front);
      forall i | 0 <= i < |ks| && replies(i).Ok? ensures StoredForm(cfg, ks[i]) != k {
        assert ks[i] == pairs[i].0;
      }
      assert k !in Succeeded(cfg, ks, replies);
    }
  }

  /** Batch independence: of two pairs whose first POST fails, only the second reaches the cache. */
  lemma BatchSetIndependence(cfg: Config, cache: Cache, k1: Bytes, v1: Bytes, k2: Bytes, v2: Bytes, replies: nat -> Reply)
    requires cfg.cached && cache.Some? && replies(0).Fail? && replies(1).Ok?
    ensures AfterSets(cfg, cache, [(k1, v1), (k2, v2)], replies).Some?
    ensures AfterSets(cfg, cache, [(k1, v1), (k2, v2)], replies).value.Keys == cache.value.Keys + {StoredForm(cfg, k2)}
  {
    var pairs := [(k1, v1), (k2, v2)];
    AfterSetsKeys(cfg, cache, pairs, replies);
    var ks := KeysOf(pairs);
    assert StoredForm(cfg, ks[1]) in Succeeded(cfg, ks, replies);
    assert Succeeded(cfg, ks, replies) == {StoredForm(cfg, k2)};
  }

  /**
   * A batch `delete` in cached mode removes the stored key of every key whose
   * DELETE got through and keeps every other entry as it was.
   */
  lemma {:induction false} AfterDeletesKeys(cfg: Config, cache: Cache, keys: seq<Bytes>, replies: nat -> Reply)
    requires cache.Some?
    ensures AfterDeletes(cfg, cache, keys, replies).Some?
    ensures AfterDeletes(cfg, cache, keys, replies).value.Keys ==
      cache.value.Keys - (if cfg.cached then Succeeded(cfg, keys, replies) else {})
    ensures forall k :: k in AfterDeletes(cfg, cache, keys, replies).value ==>
      AfterDeletes(cfg, cache, keys, replies).value[k] == cache.value[k]
  {
    if keys != [] {
      AfterDeletesKeys(cfg, cache, keys[..|keys| - 1], replies);
      SucceededStep(cfg, keys, replies);
    }
  }

  /**
   * `empty()` in encoded, cached mode deletes the cached keys it lists, which are
   * already encoded, after encoding them again: the cache entry "a+b" written by
   * `set("a b", …)` survives even when every DELETE succeeds.
   */
  lemma EmptyKeepsEncodedKey(cfg: Config, replies: nat -> Reply)
    requires cfg.encoded && cfg.cached
    ensures AfterDeletes(cfg, Some(map[[97, PLUS, 98] := Some([49])]), [[97, PLUS, 98]], replies) ==
      Some(map[[97, PLUS, 98] := Some([49])])
  {
    var listed: Bytes := [97, PLUS, 98];
    assert EncodeByte(PLUS) == [PERCENT, 50, 66];
    assert Encode(listed) == [97, PERCENT, 50, 66, 98] by {
      assert Encode(listed) == [97] + Encode(listed[1..]);
      assert Encode(listed[1..]) == [PERCENT, 50, 66] + Encode(listed[2..]);
      assert Encode(listed[2..]) == [98] + Encode(listed[3..]);
    }
    assert [listed][..0] == [];
  }
}
