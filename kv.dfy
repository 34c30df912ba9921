/**
 * The key/value namespace that the `scheduled` handler (src/index.ts) reads and writes
 * and that both `postMastodonStatus` versions read for reply targets, and the
 * layout of its keys:
 * `latest` holds the id of the newest mirrored tweet, `tweet-<id>` the id
 * of the status that mirrors tweet `<id>`.
 */
module KvStore {
  import opened Wrappers

  /** The cursor key. */
  const LatestKey: string := "latest"

  /** The key of the mapping from a tweet id to its mirrored status id. */
  function TweetKey(id: string): string
  {
    "tweet-" + id
  }

  /** Distinct tweets have distinct mapping keys. */
  lemma TweetKeyInjective(a: string, b: string)
    requires TweetKey(a) == TweetKey(b)
    ensures a == b
  {
    assert a == TweetKey(a)[6..];
    assert b == TweetKey(b)[6..];
  }

  /** No mapping key is the cursor key. */
  lemma TweetKeyNotLatest(id: string)
    ensures TweetKey(id) != LatestKey
  {
    assert TweetKey(id)[0] == 't' != LatestKey[0];
  }

  /**
   * The contents of a namespace: the values, and the expiry (a time to live
   * in seconds) of the keys last written with one. Expiry is recorded only;
   * time is not modelled.
   */
  datatype Snapshot = Snapshot(values: map<string, string>, ttls: map<string, nat>) {

    /** `get(key)`: `None` stands for JavaScript's `null` on a missing key. */
    function Get(key: string): Option<string>
    {
      if key in values then Some(values[key]) else None
    }

    /** `put(key, value, { expirationTtl })`; a put without a TTL leaves the key without expiry. */
    function Put(key: string, value: string, ttl: Option<nat>): (r: Snapshot)
      ensures r.Get(key) == Some(value)
      ensures (key in r.ttls) == ttl.Some? && (ttl.Some? ==> r.ttls[key] == ttl.value)
      ensures forall k :: k != key ==> r.Get(k) == Get(k)
      ensures forall k :: k != key ==> (k in r.ttls <==> k in ttls) && (k in ttls ==> r.ttls[k] == ttls[k])
    {
      Snapshot(values[key := value], if ttl.Some? then ttls[key := ttl.value] else ttls - {key})
    }
  }

  /** A KV namespace, updated in place by `put`. */
  class Namespace {
    var values: map<string, string>
    var ttls: map<string, nat>

    function State(): Snapshot
      reads this
    {
      Snapshot(values, ttls)
    }

    constructor (initial: Snapshot)
      ensures State() == initial
    {
      values, ttls := initial.values, initial.ttls;
    }

    method Get(key: string) returns (r: Option<string>)
      ensures r == State().Get(key)
    {
      if key in values {
        r := Some(values[key]);
      } else {
        r := None;
      }
    }

    method Put(key: string, value: string, ttl: Option<nat>)
      modifies this
      ensures State() == old(State()).Put(key, value, ttl)
    {
      values := values[key := value];
      if ttl.Some? {
        ttls := ttls[key := ttl.value];
      } else {
        ttls := ttls - {key};
      }
    }
  }
}
