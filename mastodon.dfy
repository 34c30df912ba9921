/**
 * src/mastodon.ts: the reply target of a mirrored status, the selection of
 * the attachments to upload, and the status that is published. The network
 * calls are oracle functions: `upload` stands for fetching one item and
 * posting it to the media endpoint, `publish` for posting the status;
 * `None` means the awaited call threw.
 */
module Mastodon {
  import opened Wrappers
  import opened Twitter
  import opened KvStore
  import Utils

  /*
   * Reply target
   */

  /**
   * The status to reply to: looked up only for a tweet that belongs to
   * another tweet's conversation; `None` is JavaScript's `null`, also when
   * the lookup finds no mapping.
   */
  function ReplyTarget(store: Snapshot, tweet: Tweet): (r: Option<string>)
    ensures !Truthy(tweet.conversationId) ==> r.None?
    ensures tweet.conversationId == Some(tweet.id) ==> r.None?
    ensures Truthy(tweet.conversationId) && tweet.conversationId.value != tweet.id ==>
      r == store.Get(TweetKey(tweet.conversationId.value))
  {
    if Truthy(tweet.conversationId) && tweet.conversationId.value != tweet.id
    then store.Get(TweetKey(tweet.conversationId.value))
    else None
  }

  /*
   * Media selection and upload
   */

  /** `media.find((m) => m.media_key === key)`: the first catalog entry for `key`. */
  function FindMedia(media: seq<Media>, key: string): (r: Option<Media>)
    ensures r.None? <==> forall i :: 0 <= i < |media| ==> media[i].mediaKey != Some(key)
    ensures r.Some? ==> exists i :: 0 <= i < |media| && media[i] == r.value && media[i].mediaKey == Some(key)
                                    && forall j :: 0 <= j < i ==> media[j].mediaKey != Some(key)
    decreases |media|
  {
    if media == [] then None
    else if media[0].mediaKey == Some(key) then Some(media[0])
    else
      var r := FindMedia(media[1..], key);
      if r.Some? then
        var i :| 0 <= i < |media[1..]| && media[1..][i] == r.value && media[1..][i].mediaKey == Some(key)
                 && forall j :: 0 <= j < i ==> media[1..][j].mediaKey != Some(key);
        assert media[i + 1] == r.value;
        r
      else r
  }

  /** One upload: the item's source URL, and the description sent with it. */
  datatype Upload = Upload(url: string, description: Option<string>)

  /** The upload `uploadMedia` starts for one key: none unless the entry has a key and a URL. */
  function UploadFor(media: seq<Media>, key: string): (r: Option<Upload>)
    ensures r.Some? <==>
      (var item := FindMedia(media, key);
       item.Some? && Truthy(item.value.mediaKey) && Truthy(item.value.url))
    ensures r.Some? ==>
      (var item := FindMedia(media, key).value;
       r.value.url == item.url.value && (r.value.description.Some? <==> Truthy(item.altText))
       && (r.value.description.Some? ==> r.value.description == item.altText))
  {
    match FindMedia(media, key)
    case None => None
    case Some(item) =>
      if Truthy(item.mediaKey) && Truthy(item.url)
      then Some(Upload(item.url.value, if Truthy(item.altText) then item.altText else None))
      else None
  }

  /** The uploads started for `keys`, in key order (the promises of `uploadMedia`). */
  function Selected(keys: seq<string>, media: seq<Media>): (r: seq<Upload>)
    ensures |r| <= |keys|
    decreases |keys|
  {
    if keys == [] then []
    else
      var started := Selected(keys[..|keys| - 1], media);
      match UploadFor(media, keys[|keys| - 1])
      case None => started
      case Some(u) => started + [u]
  }

  /** Every upload succeeds. */
  predicate AllSucceed(uploads: seq<Upload>, upload: Upload -> Option<string>)
  {
    forall i :: 0 <= i < |uploads| ==> upload(uploads[i]).Some?
  }

  /** All uploads succeed exactly when all but the last do and the last does too. */
  lemma AllSucceedSnoc(uploads: seq<Upload>, upload: Upload -> Option<string>)
    requires |uploads| > 0
    ensures AllSucceed(uploads, upload)
        <==> AllSucceed(uploads[..|uploads| - 1], upload) && upload(uploads[|uploads| - 1]).Some?
  {
    var init := uploads[..|uploads| - 1];
    assert forall i :: 0 <= i < |init| ==> init[i] == uploads[i];
  }

  /** The ids of successful uploads, in the order the uploads were started. */
  function IdsInOrder(uploads: seq<Upload>, upload: Upload -> Option<string>): (r: seq<string>)
    requires AllSucceed(uploads, upload)
    ensures |r| == |uploads|
    ensures forall i :: 0 <= i < |uploads| ==> r[i] == upload(uploads[i]).value
    decreases |uploads|
  {
    if uploads == [] then []
    else
      AllSucceedSnoc(uploads, upload);
      IdsInOrder(uploads[..|uploads| - 1], upload) + [upload(uploads[|uploads| - 1]).value]
  }

  /**
   * `Promise.all` over the uploads: when all succeed, exactly their ids,
   * one per upload, in no particular order.
   */
  function JoinAll(uploads: seq<Upload>, upload: Upload -> Option<string>): (r: Option<multiset<string>>)
    ensures r.Some? <==> AllSucceed(uploads, upload)
    ensures r.Some? ==> r.value == multiset(IdsInOrder(uploads, upload))
    ensures r.Some? ==> |r.value| == |uploads|
    ensures r.Some? ==> forall i :: 0 <= i < |uploads| ==> upload(uploads[i]).value in r.value
    decreases |uploads|
  {
    if uploads == [] then Some(multiset{})
    else
      AllSucceedSnoc(uploads, upload);
      var ids, last := JoinAll(uploads[..|uploads| - 1], upload), upload(uploads[|uploads| - 1]);
      if ids.None? || last.None? then None
      else
        JoinStep(uploads, upload, ids.value);
        Some(ids.value + multiset{last.value})
  }

  /** Adding the last upload's id to the join of the others gives the join of all, one id per upload. */
  lemma JoinStep(uploads: seq<Upload>, upload: Upload -> Option<string>, ids: multiset<string>)
    requires |uploads| > 0 && AllSucceed(uploads, upload)
    requires AllSucceed(uploads[..|uploads| - 1], upload)
    requires ids == multiset(IdsInOrder(uploads[..|uploads| - 1], upload))
    ensures var all := ids + multiset{upload(uploads[|uploads| - 1]).value};
      && all == multiset(IdsInOrder(uploads, upload))
      && |all| == |uploads|
      && forall i :: 0 <= i < |uploads| ==> upload(uploads[i]).value in all
  {
    var order := IdsInOrder(uploads, upload);
    var last := upload(uploads[|uploads| - 1]).value;
    assert order == IdsInOrder(uploads[..|uploads| - 1], upload) + [last];
    assert multiset(order) == ids + multiset{last};
    InMultiset(order);
  }

  /** Every element of a sequence is in its multiset. */
  lemma InMultiset(s: seq<string>)
    ensures forall i :: 0 <= i < |s| ==> s[i] in multiset(s)
  {
  }

  /**
   * `uploadMedia`: one upload per key whose catalog entry has a key and a
   * URL; the ids are collected as the uploads complete, so only their
   * multiset is determined.
   */
  method UploadMedia(mediaKeys: seq<string>, media: seq<Media>, upload: Upload -> Option<string>)
    returns (mediaIds: Option<multiset<string>>)
    ensures mediaIds == JoinAll(Selected(mediaKeys, media), upload)
  {
    var promises: seq<Upload> := [];
    for i := 0 to |mediaKeys|
      invariant promises == Selected(mediaKeys[..i], media)
    {
      var key := mediaKeys[i];
      var item := FindMedia(media, key);
      if item.Some? && Truthy(item.value.mediaKey) && Truthy(item.value.url) {
        var description := if Truthy(item.value.altText) then item.value.altText else None;
        promises := promises + [Upload(item.value.url.value, description)];
      }
      assert mediaKeys[..i + 1][..i] == mediaKeys[..i];
    }
    assert mediaKeys[..|mediaKeys|] == mediaKeys;
    mediaIds := JoinAll(promises, upload);
  }

  /** An upload is started for exactly the keys whose entry has a key and a URL. */
  lemma {:induction false} SelectedMembers(keys: seq<string>, media: seq<Media>, u: Upload)
    ensures u in Selected(keys, media) <==> exists i :: 0 <= i < |keys| && UploadFor(media, keys[i]) == Some(u)
    decreases |keys|
  {
    if keys != [] {
      var init := keys[..|keys| - 1];
      SelectedMembers(init, media, u);
      if u in Selected(keys, media) && u !in Selected(init, media) {
        assert UploadFor(media, keys[|keys| - 1]) == Some(u);
      }
      if exists i :: 0 <= i < |keys| && UploadFor(media, keys[i]) == Some(u) {
        var i :| 0 <= i < |keys| && UploadFor(media, keys[i]) == Some(u);
        if i < |keys| - 1 {
          assert init[i] == keys[i];
        }
      }
      forall i | 0 <= i < |init| ensures init[i] == keys[i] { }
    }
  }

  /** When every key has an entry with a URL, one upload is started per key. */
  lemma {:induction false} SelectedAll(keys: seq<string>, media: seq<Media>)
    requires forall i :: 0 <= i < |keys| ==> UploadFor(media, keys[i]).Some?
    ensures |Selected(keys, media)| == |keys|
    decreases |keys|
  {
    if keys != [] {
      var init := keys[..|keys| - 1];
      assert forall i :: 0 <= i < |init| ==> init[i] == keys[i];
      SelectedAll(init, media);
    }
  }

  /** A key without a usable catalog entry adds no upload, wherever it stands. */
  lemma {:induction false} SelectedSkips(keys: seq<string>, key: string, rest: seq<string>, media: seq<Media>)
    requires UploadFor(media, key).None?
    ensures Selected(keys + [key] + rest, media) == Selected(keys + rest, media)
    decreases |rest|
  {
    if rest == [] {
      assert keys + [key] + rest == keys + [key] && keys + rest == keys;
      SelectedSnoc(keys, key, media);
    } else {
      var init, last := rest[..|rest| - 1], rest[|rest| - 1];
      SelectedSkips(keys, key, init, media);
      assert keys + [key] + rest == (keys + [key] + init) + [last];
      SelectedSnoc(keys + [key] + init, last, media);
      assert keys + rest == (keys + init) + [last];
      SelectedSnoc(keys + init, last, media);
    }
  }

  /** Appending one key appends its upload, if any. */
  lemma SelectedSnoc(keys: seq<string>, key: string, media: seq<Media>)
    ensures Selected(keys + [key], media)
         == Selected(keys, media) + (match UploadFor(media, key) case None => [] case Some(u) => [u])
  {
    assert (keys + [key])[..|keys|] == keys;
  }

  /**
   * When every key has a usable catalog entry and every upload succeeds,
   * `uploadMedia` yields exactly one id per key.
   */
  lemma OneIdPerKey(keys: seq<string>, media: seq<Media>, upload: Upload -> Option<string>)
    requires forall i :: 0 <= i < |keys| ==> UploadFor(media, keys[i]).Some?
    requires JoinAll(Selected(keys, media), upload).Some?
    ensures |JoinAll(Selected(keys, media), upload).value| == |keys|
  {
    SelectedAll(keys, media);
  }

  /** The media keys the tweet's attachments list; none when it has no attachments or no key list. */
  function MediaKeys(tweet: Tweet): (r: seq<string>)
    ensures tweet.attachments.None? ==> r == []
  {
    if tweet.attachments.Some? then OrEmpty(tweet.attachments.value.mediaKeys) else []
  }

  /*
   * The published status
   */

  /** The JSON body of the status request. */
  datatype StatusBody = StatusBody(status: string, mediaIds: multiset<string>, inReplyToId: Option<string>)

  /**
   * `postMastodonStatus`: resolve the reply target, upload the media, then
   * publish the decoded text. A failed upload fails the whole call before
   * anything is published.
   */
  method PostStatus(kv: Namespace, tweet: Tweet, media: seq<Media>,
                    upload: Upload -> Option<string>, publish: StatusBody -> Option<string>)
    returns (body: Option<StatusBody>, post: Option<string>)
    ensures body.None? <==> JoinAll(Selected(MediaKeys(tweet), media), upload).None?
    ensures body.Some? ==> body.value.status == Utils.Unescape(tweet.text)
    ensures body.Some? ==> body.value.inReplyToId == ReplyTarget(kv.State(), tweet)
    ensures body.Some? ==> Some(body.value.mediaIds) == JoinAll(Selected(MediaKeys(tweet), media), upload)
    ensures post == if body.Some? then publish(body.value) else None
  {
    var replyId: Option<string> := None;
    if Truthy(tweet.conversationId) && tweet.conversationId.value != tweet.id {
      replyId := kv.Get(TweetKey(tweet.conversationId.value));
    }
    var mediaIds := UploadMedia(MediaKeys(tweet), media, upload);
    if mediaIds.None? {
      return None, None;
    }
    body := Some(StatusBody(Utils.Unescape(tweet.text), mediaIds.value, replyId));
    post := publish(body.value);
  }
}
