/**
 * The parts of the source network's API payloads that the mirror reads:
 * tweets, their attachments and entities, and the media catalog that comes
 * with a timeline response. Optional JSON fields are `Option`s.
 */
module Twitter {
  import opened Wrappers

  /** A JavaScript optional string used as a condition: present and non-empty. */
  predicate Truthy(o: Option<string>)
  {
    o.Some? && o.value != ""
  }

  /** `list || []` for an optional array: an absent array means an empty one. */
  function OrEmpty<T>(o: Option<seq<T>>): seq<T>
  {
    if o.Some? then o.value else []
  }

  datatype Attachments = Attachments(mediaKeys: Option<seq<string>>)

  datatype Tweet = Tweet(
    id: string,
    text: string,
    conversationId: Option<string>,
    attachments: Option<Attachments>)

  /** An entry of the response's media catalog. */
  datatype Media = Media(mediaKey: Option<string>, url: Option<string>, altText: Option<string>)

  /** A shortened link in a tweet's text; `mediaKey` is set when it links an attachment. */
  datatype UrlEntity = UrlEntity(url: string, expandedUrl: Option<string>, mediaKey: Option<string>)

  datatype MentionEntity = MentionEntity(username: string)

  datatype Entities = Entities(urls: Option<seq<UrlEntity>>, mentions: Option<seq<MentionEntity>>)

  /** The timeline response; `data` is absent when there are no tweets to return. */
  datatype TweetsResponse = TweetsResponse(data: Option<seq<Tweet>>)
}
