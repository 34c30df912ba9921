/**
 * src/index.ts: the scheduled mirroring cycle. It reads the cursor, fetches
 * the tweets newer than it (newest first), publishes them oldest first,
 * records `tweet-<id>` for each, and finally moves the cursor to the newest
 * fetched tweet. Fetching and publishing are oracle functions; `None`
 * means the awaited call threw, which ends the cycle where it stands.
 */
module Worker {
  import opened Wrappers
  import opened Twitter
  import opened KvStore
  import Mastodon

  /** `TWEET_ID_TTL`: mappings expire after seven days. */
  const TweetIdTtl: nat := 60 * 60 * 24 * 7

  /** `(await get("latest")) || undefined`: an empty stored cursor counts as none. */
  function Cursor(latest: Option<string>): (r: Option<string>)
    ensures r.None? <==> !Truthy(latest)
    ensures r.Some? ==> r == latest
  {
    if Truthy(latest) then latest else None
  }

  /*
   * The local `postMastodonStatus`
   */

  /** The JSON body this version sends: the raw text and the reply target. */
  datatype StatusRequest = StatusRequest(status: string, inReplyToId: Option<string>)

  /**
   * This version resolves a reply target whenever the tweet has a
   * conversation id, its own included.
   */
  function LocalReplyTarget(store: Snapshot, tweet: Tweet): (r: Option<string>)
    ensures !Truthy(tweet.conversationId) ==> r.None?
    ensures Truthy(tweet.conversationId) ==> r == store.Get(TweetKey(tweet.conversationId.value))
  {
    if Truthy(tweet.conversationId) then store.Get(TweetKey(tweet.conversationId.value)) else None
  }

  /** The request published for `tweet` when the store holds `store`. */
  function LocalRequest(store: Snapshot, tweet: Tweet): StatusRequest
  {
    StatusRequest(tweet.text, LocalReplyTarget(store, tweet))
  }

  method PostStatus(kv: Namespace, tweet: Tweet, publish: StatusRequest -> Option<string>)
    returns (request: StatusRequest, post: Option<string>)
    ensures request.status == tweet.text
    ensures request.inReplyToId == LocalReplyTarget(kv.State(), tweet)
    ensures post == publish(request)
  {
    var replyId: Option<string> := None;
    if Truthy(tweet.conversationId) {
      replyId := kv.Get(TweetKey(tweet.conversationId.value));
    }
    request := StatusRequest(tweet.text, replyId);
    post := publish(request);
  }

  /**
   * The local version replies a conversation's root to its own earlier
   * mirror when that mapping exists (as after a cycle that failed part way
   * and is re-run), where src/mastodon.ts publishes it without a reply target.
   */
  lemma LocalRootRepliesToItself(store: Snapshot, tweet: Tweet)
    requires tweet.conversationId == Some(tweet.id) && tweet.id != ""
    requires TweetKey(tweet.id) in store.values
    ensures LocalReplyTarget(store, tweet) == Some(store.values[TweetKey(tweet.id)])
    ensures Mastodon.ReplyTarget(store, tweet) == None
  {
  }

  /*
   * The cycle as a function of the store and the oracles
   */

  /** One published tweet: the request sent and the id of the status it created. */
  datatype Posted = Posted(tweet: Tweet, request: StatusRequest, postId: string)

  /** The store after (part of) a cycle, the tweets published so far, and whether it ran to the end. */
  datatype Run = Run(store: Snapshot, log: seq<Posted>, completed: bool)

  /**
   * The loop of `scheduled`: `tweets` from its last element to its first,
   * each published and then mapped; a publish that throws ends the loop.
   */
  function PublishBackward(store: Snapshot, tweets: seq<Tweet>, publish: StatusRequest -> Option<string>): Run
    decreases |tweets|
  {
    if tweets == [] then Run(store, [], true)
    else
      var run := PublishBackward(store, tweets[1..], publish);
      if !run.completed then run
      else
        var request := LocalRequest(run.store, tweets[0]);
        match publish(request)
        case None => Run(run.store, run.log, false)
        case Some(id) =>
          Run(run.store.Put(TweetKey(tweets[0].id), id, Some(TweetIdTtl)),
              run.log + [Posted(tweets[0], request, id)], true)
  }

  /** The fetched tweets, `None` when the fetch threw; a response without `data` is an empty list. */
  function Fetched(store: Snapshot, fetchTweets: Option<string> -> Option<TweetsResponse>): Option<seq<Tweet>>
  {
    match fetchTweets(Cursor(store.Get(LatestKey)))
    case None => None
    case Some(response) => Some(OrEmpty(response.data))
  }

  /** One run of `scheduled` on a store. */
  function Cycle(store: Snapshot, fetchTweets: Option<string> -> Option<TweetsResponse>,
                 publish: StatusRequest -> Option<string>): Run
  {
    match Fetched(store, fetchTweets)
    case None => Run(store, [], false)
    case Some(tweets) =>
      var run := PublishBackward(store, tweets, publish);
      if run.completed && |tweets| >= 1
      then Run(run.store.Put(LatestKey, tweets[0].id, None), run.log, true)
      else run
  }

  /** Once the loop has stopped, the earlier (newer) tweets are not touched. */
  lemma {:induction false} StoppedStaysStopped(store: Snapshot, tweets: seq<Tweet>, i: nat,
                                              publish: StatusRequest -> Option<string>)
    requires i <= |tweets| && !PublishBackward(store, tweets[i..], publish).completed
    ensures PublishBackward(store, tweets, publish) == PublishBackward(store, tweets[i..], publish)
    decreases i
  {
    if i > 0 {
      assert tweets[i - 1..][1..] == tweets[i..];
      StoppedStaysStopped(store, tweets, i - 1, publish);
    }
  }

  /*
   * Properties of the loop
   */

  /**
   * Tweets are published from the last fetched (the oldest) to the first;
   * the loop publishes all of them exactly when it runs to the end, and
   * each logged status is what `publish` returned for the tweet's text.
   */
  lemma {:induction false} PublishedOldestFirst(store: Snapshot, tweets: seq<Tweet>,
                                               publish: StatusRequest -> Option<string>)
    ensures var run := PublishBackward(store, tweets, publish);
      && (run.completed <==> |run.log| == |tweets|)
      && |run.log| <= |tweets|
      && (forall k :: 0 <= k < |run.log| ==> run.log[k].tweet == tweets[|tweets| - 1 - k])
      && (forall k :: 0 <= k < |run.log| ==>
            run.log[k].request.status == run.log[k].tweet.text
            && publish(run.log[k].request) == Some(run.log[k].postId))
    decreases |tweets|
  {
    if tweets != [] {
      PublishedOldestFirst(store, tweets[1..], publish);
    }
  }

  /** No two fetched tweets share an id. */
  ghost predicate DistinctIds(tweets: seq<Tweet>)
  {
    forall i, j :: 0 <= i < j < |tweets| ==> tweets[i].id != tweets[j].id
  }

  /** `key` is the mapping key of a tweet the run published. */
  ghost predicate PublishedKey(run: Run, key: string)
  {
    exists k :: 0 <= k < |run.log| && key == TweetKey(run.log[k].tweet.id)
  }

  /** `key` has the same value and expiry in both stores. */
  predicate SameEntry(a: Snapshot, b: Snapshot, key: string)
  {
    a.Get(key) == b.Get(key) && (key in a.ttls <==> key in b.ttls) && (key in a.ttls ==> a.ttls[key] == b.ttls[key])
  }

  /** `store` maps the tweet of `posted` to its status, with the seven-day expiry. */
  predicate MappedTo(store: Snapshot, posted: Posted)
  {
    var key := TweetKey(posted.tweet.id);
    store.Get(key) == Some(posted.postId) && key in store.ttls && store.ttls[key] == TweetIdTtl
  }

  /** Every tweet a run published is mapped in the run's store. */
  predicate EveryPostMapped(run: Run)
  {
    forall k :: 0 <= k < |run.log| ==> MappedTo(run.store, run.log[k])
  }

  /**
   * After the loop, each published tweet's key maps to the id of the status
   * it was published as, with the seven-day expiry.
   */
  lemma {:induction false} MappingsRecorded(store: Snapshot, tweets: seq<Tweet>,
                                           publish: StatusRequest -> Option<string>)
    requires DistinctIds(tweets)
    ensures EveryPostMapped(PublishBackward(store, tweets, publish))
    decreases |tweets|
  {
    if tweets != [] {
      var rest := tweets[1..];
      var run := PublishBackward(store, rest, publish);
      MappingsRecorded(store, rest, publish);
      PublishedOldestFirst(store, rest, publish);
      var final := PublishBackward(store, tweets, publish);
      if run.completed && final.completed {
        forall k | 0 <= k < |run.log|
          ensures TweetKey(run.log[k].tweet.id) != TweetKey(tweets[0].id)
        {
          assert run.log[k].tweet == tweets[|tweets| - 1 - k];
          if TweetKey(run.log[k].tweet.id) == TweetKey(tweets[0].id) {
            TweetKeyInjective(run.log[k].tweet.id, tweets[0].id);
          }
        }
        assert final.log == run.log + [final.log[|run.log|]];
      }
    }
  }

  /**
   * The loop writes only the mapping keys of the tweets it published: a
   * tweet whose publish threw, and every tweet after it, leaves its key alone.
   */
  lemma {:induction false} PublishBackwardFrame(store: Snapshot, tweets: seq<Tweet>,
                                               publish: StatusRequest -> Option<string>, key: string)
    requires !PublishedKey(PublishBackward(store, tweets, publish), key)
    ensures SameEntry(store, PublishBackward(store, tweets, publish).store, key)
    decreases |tweets|
  {
    if tweets != [] {
      var run := PublishBackward(store, tweets[1..], publish);
      var final := PublishBackward(store, tweets, publish);
      if run.completed && publish(LocalRequest(run.store, tweets[0])).Some? {
        assert final.log == run.log + [final.log[|run.log|]];
        assert final.log[|run.log|].tweet == tweets[0];
        forall k | 0 <= k < |run.log| ensures key != TweetKey(run.log[k].tweet.id) {
          assert final.log[k] == run.log[k];
        }
      }
      PublishBackwardFrame(store, tweets[1..], publish, key);
    }
  }

  /**
   * Two tweets of one conversation fetched together, the root `a` older than
   * the reply `b`: `a` is published first without a reply target (it has no
   * mapping yet), then `b` replies to the status `a` was published as.
   */
  lemma ThreadInOneBatch(store: Snapshot, a: Tweet, b: Tweet, publish: StatusRequest -> Option<string>)
    requires a.id != "" && a.id != b.id
    requires a.conversationId == Some(a.id) && b.conversationId == Some(a.id)
    requires TweetKey(a.id) !in store.values
    requires PublishBackward(store, [b, a], publish).completed
    ensures var log := PublishBackward(store, [b, a], publish).log;
      && |log| == 2 && log[0].tweet == a && log[1].tweet == b
      && log[0].request.inReplyToId == None
      && log[1].request.inReplyToId == Some(log[0].postId)
  {
    assert [b, a][1..] == [a];
    assert [a][1..] == [];
    var first := PublishBackward(store, [a], publish);
    var both := PublishBackward(store, [b, a], publish);
    assert PublishBackward(store, [a][1..], publish) == Run(store, [], true);
    assert first.completed;
    assert publish(LocalRequest(store, a)).Some?;
    assert LocalRequest(store, a).inReplyToId == None;
    var postA := publish(LocalRequest(store, a)).value;
    assert first == Run(store.Put(TweetKey(a.id), postA, Some(TweetIdTtl)),
                        [Posted(a, LocalRequest(store, a), postA)], true);
    assert LocalRequest(first.store, b).inReplyToId == Some(postA);
  }

  /**
   * In a completed run, the run over the tweets older than `tweets[i]` is
   * a completed prefix of it, and `tweets[i]` is published next, with the
   * request built from the store as those older tweets' puts left it.
   */
  lemma {:induction false} RunExtends(store: Snapshot, tweets: seq<Tweet>,
                                     publish: StatusRequest -> Option<string>, i: nat)
    requires i < |tweets| && PublishBackward(store, tweets, publish).completed
    ensures |PublishBackward(store, tweets, publish).log| == |tweets|
    ensures var full, older := PublishBackward(store, tweets, publish), PublishBackward(store, tweets[i + 1..], publish);
      && older.completed
      && older.log == full.log[..|tweets| - 1 - i]
      && full.log[|tweets| - 1 - i].tweet == tweets[i]
      && full.log[|tweets| - 1 - i].request == LocalRequest(older.store, tweets[i])
    decreases i
  {
    var full, mid := PublishBackward(store, tweets, publish), PublishBackward(store, tweets[1..], publish);
    RunStep(store, tweets, publish);
    if i > 0 {
      RunExtends(store, tweets[1..], publish, i - 1);
      assert tweets[1..][i..] == tweets[i + 1..];
      assert full.log[..|tweets| - 1 - i] == mid.log[..|tweets| - 1 - i];
    } else {
      assert full.log[..|tweets| - 1] == mid.log;
    }
  }

  /** A completed run over a non-empty batch is the completed run over the older tweets plus the newest. */
  lemma RunStep(store: Snapshot, tweets: seq<Tweet>, publish: StatusRequest -> Option<string>)
    requires |tweets| > 0 && PublishBackward(store, tweets, publish).completed
    ensures var full, mid := PublishBackward(store, tweets, publish), PublishBackward(store, tweets[1..], publish);
      && mid.completed && |mid.log| == |tweets| - 1 && |full.log| == |tweets|
      && full.log == mid.log + [Posted(tweets[0], LocalRequest(mid.store, tweets[0]), full.log[|mid.log|].postId)]
  {
    PublishedOldestFirst(store, tweets[1..], publish);
  }

  /**
   * A reply fetched in the same batch as its (older) root, anywhere in
   * the batch: once the whole batch is published, the reply's request
   * replies to the status the root was published as.
   */
  lemma ThreadAnywhereInBatch(store: Snapshot, tweets: seq<Tweet>, publish: StatusRequest -> Option<string>,
                              i: nat, j: nat)
    requires i < j < |tweets| && DistinctIds(tweets)
    requires tweets[j].id != "" && tweets[i].conversationId == Some(tweets[j].id)
    requires PublishBackward(store, tweets, publish).completed
    ensures |PublishBackward(store, tweets, publish).log| == |tweets|
    ensures var log := PublishBackward(store, tweets, publish).log;
      && log[|tweets| - 1 - i].tweet == tweets[i] && log[|tweets| - 1 - j].tweet == tweets[j]
      && log[|tweets| - 1 - i].request.inReplyToId == Some(log[|tweets| - 1 - j].postId)
  {
    RunExtends(store, tweets, publish, i);
    PublishedOldestFirst(store, tweets, publish);
    var full, older := PublishBackward(store, tweets, publish), PublishBackward(store, tweets[i + 1..], publish);
    var suffix := tweets[i + 1..];
    assert DistinctIds(suffix) by {
      forall a, b | 0 <= a < b < |suffix| ensures suffix[a].id != suffix[b].id {
        assert suffix[a] == tweets[i + 1 + a] && suffix[b] == tweets[i + 1 + b];
      }
    }
    MappingsRecorded(store, suffix, publish);
    PublishedOldestFirst(store, suffix, publish);
    var k := |tweets| - 1 - j;
    assert older.log[k] == full.log[k];
    assert older.log[k].tweet == suffix[j - i - 1] == tweets[j];
    assert MappedTo(older.store, older.log[k]);
  }

  /*
   * Properties of a whole cycle
   */

  /** A cycle publishes the fetched tweets oldest first, all of them when it completes. */
  lemma CycleOldestFirst(store: Snapshot, fetchTweets: Option<string> -> Option<TweetsResponse>,
                         publish: StatusRequest -> Option<string>, tweets: seq<Tweet>)
    requires Fetched(store, fetchTweets) == Some(tweets)
    ensures var run := Cycle(store, fetchTweets, publish);
      && (run.completed <==> |run.log| == |tweets|)
      && |run.log| <= |tweets|
      && forall k :: 0 <= k < |run.log| ==> run.log[k].tweet == tweets[|tweets| - 1 - k]
  {
    PublishedOldestFirst(store, tweets, publish);
  }

  /** After a cycle every published tweet is mapped to its status for seven days. */
  lemma CycleRecordsMappings(store: Snapshot, fetchTweets: Option<string> -> Option<TweetsResponse>,
                             publish: StatusRequest -> Option<string>, tweets: seq<Tweet>)
    requires Fetched(store, fetchTweets) == Some(tweets) && DistinctIds(tweets)
    ensures EveryPostMapped(Cycle(store, fetchTweets, publish))
  {
    MappingsRecorded(store, tweets, publish);
    var run := PublishBackward(store, tweets, publish);
    var final := Cycle(store, fetchTweets, publish);
    assert final.log == run.log;
    forall k | 0 <= k < |final.log| ensures MappedTo(final.store, final.log[k]) {
      var key := TweetKey(run.log[k].tweet.id);
      TweetKeyNotLatest(run.log[k].tweet.id);
      assert MappedTo(run.store, run.log[k]);
      assert SameEntry(run.store, final.store, key);
    }
  }

  /** A completed cycle over a non-empty batch leaves the cursor at the newest fetched tweet, without expiry. */
  lemma CycleAdvancesCursor(store: Snapshot, fetchTweets: Option<string> -> Option<TweetsResponse>,
                            publish: StatusRequest -> Option<string>, tweets: seq<Tweet>)
    requires Fetched(store, fetchTweets) == Some(tweets) && |tweets| >= 1
    requires Cycle(store, fetchTweets, publish).completed
    ensures Cycle(store, fetchTweets, publish).store.Get(LatestKey) == Some(tweets[0].id)
    ensures LatestKey !in Cycle(store, fetchTweets, publish).store.ttls
  {
  }

  /**
   * A cycle that throws leaves the cursor where it was, while the tweets it
   * did publish keep their mappings: the next cycle fetches them again.
   */
  lemma CycleHoldsCursorOnFailure(store: Snapshot, fetchTweets: Option<string> -> Option<TweetsResponse>,
                                  publish: StatusRequest -> Option<string>)
    requires !Cycle(store, fetchTweets, publish).completed
    ensures SameEntry(store, Cycle(store, fetchTweets, publish).store, LatestKey)
  {
    match Fetched(store, fetchTweets)
    case None =>
    case Some(tweets) =>
      var run := PublishBackward(store, tweets, publish);
      assert !PublishedKey(run, LatestKey) by {
        if PublishedKey(run, LatestKey) {
          var k :| 0 <= k < |run.log| && LatestKey == TweetKey(run.log[k].tweet.id);
          TweetKeyNotLatest(run.log[k].tweet.id);
        }
      }
      PublishBackwardFrame(store, tweets, publish, LatestKey);
  }

  /**
   * A cycle writes nothing but the cursor and the mapping keys of the
   * tweets it published; a cycle whose fetch threw writes nothing.
   */
  lemma CycleWritesOnlyItsKeys(store: Snapshot, fetchTweets: Option<string> -> Option<TweetsResponse>,
                               publish: StatusRequest -> Option<string>, key: string)
    requires key != LatestKey && !PublishedKey(Cycle(store, fetchTweets, publish), key)
    ensures SameEntry(store, Cycle(store, fetchTweets, publish).store, key)
  {
    match Fetched(store, fetchTweets)
    case None =>
    case Some(tweets) =>
      assert Cycle(store, fetchTweets, publish).log == PublishBackward(store, tweets, publish).log;
      PublishBackwardFrame(store, tweets, publish, key);
  }

  /**
   * With nothing new to fetch, a cycle completes without publishing and
   * leaves the store exactly as it was, so repeating it changes nothing.
   */
  lemma CycleIdleWhenNothingNew(store: Snapshot, fetchTweets: Option<string> -> Option<TweetsResponse>,
                                publish: StatusRequest -> Option<string>)
    requires Fetched(store, fetchTweets) == Some([])
    ensures Cycle(store, fetchTweets, publish) == Run(store, [], true)
    ensures Cycle(Cycle(store, fetchTweets, publish).store, fetchTweets, publish) == Run(store, [], true)
  {
  }

  /** A response without `data` is the empty batch. */
  lemma CycleResponseWithoutData(store: Snapshot, fetchTweets: Option<string> -> Option<TweetsResponse>,
                                 publish: StatusRequest -> Option<string>)
    requires fetchTweets(Cursor(store.Get(LatestKey))) == Some(TweetsResponse(None))
    ensures Fetched(store, fetchTweets) == Some([])
    ensures Cycle(store, fetchTweets, publish) == Run(store, [], true)
  {
  }

  /** A store without a cursor fetches with no `since_id`. */
  lemma CycleWithoutCursor(store: Snapshot, fetchTweets: Option<string> -> Option<TweetsResponse>)
    requires LatestKey !in store.values
    ensures Fetched(store, fetchTweets) == (match fetchTweets(None)
                                            case None => None
                                            case Some(response) => Some(OrEmpty(response.data)))
  {
  }

  /*
   * The imperative handler
   */

  /**
   * `scheduled`, on the namespace `kv`. Returns the tweets it published and
   * whether it ran to the end (`false`: the handler threw).
   */
  method Scheduled(kv: Namespace, fetchTweets: Option<string> -> Option<TweetsResponse>,
                   publish: StatusRequest -> Option<string>)
    returns (log: seq<Posted>, completed: bool)
    modifies kv
    ensures Run(kv.State(), log, completed) == Cycle(old(kv.State()), fetchTweets, publish)
  {
    ghost var initial := kv.State();
    var latest := kv.Get(LatestKey);
    var response := fetchTweets(Cursor(latest));
    if response.None? {
      return [], false;
    }
    var tweets := OrEmpty(response.value.data);
    log := [];
    var i: int := |tweets| - 1;
    while i >= 0
      invariant -1 <= i < |tweets|
      invariant Run(kv.State(), log, true) == PublishBackward(initial, tweets[i + 1..], publish)
      decreases i
    {
      var tweet := tweets[i];
      var request, post := PostStatus(kv, tweet, publish);
      assert tweets[i..][1..] == tweets[i + 1..];
      if post.None? {
        StoppedStaysStopped(initial, tweets, i, publish);
        return log, false;
      }
      kv.Put(TweetKey(tweet.id), post.value, Some(TweetIdTtl));
      log := log + [Posted(tweet, request, post.value)];
      i := i - 1;
    }
    assert tweets[0..] == tweets;
    if |tweets| >= 1 {
      kv.Put(LatestKey, tweets[0].id, None);
    }
    completed := true;
  }
}
