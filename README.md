# twitter-mastodon-mirror, modelled in Dafny

The mirror is a scheduled worker. On each run it reads its cursor from a
key/value namespace and fetches the account's tweets newer than that cursor,
newest first. It publishes them on Mastodon oldest first. For each published
tweet it records the Mastodon status under `tweet-<id>`, which later replies
use to thread. When every tweet is published, it moves the cursor to the
newest one. Beside the worker, the repository has text helpers: one decodes
the HTML entities left in tweet text, and one expands shortened links and
mentions. It also has a second, media-aware status publisher.

The model has seven modules:

- `Wrappers` (`wrappers.dfy`): the `Option` type.
- `Strings` (`strings.dfy`): the JavaScript string primitives the code uses, over `seq<char>`.
  - `indexOf`.
  - `replace` with a string pattern, which replaces the leftmost occurrence only.
  - `replaceAll`, a left-to-right scan without overlap.
- `Twitter` (`twitter.dfy`): the payload fields the code reads.
  - Optional JSON fields are `Option`s.
  - JavaScript truthiness of an optional string is `Truthy`.
  - `list || []` is `OrEmpty`.
- `Utils` (`utils.dfy`), from `src/utils.ts`:
  - `Unescape`, the five `replaceAll` passes.
  - `ExpandEntities`, the two in-place loops, specified by the function `Expand`.
  - `Escape`, a reference escaping that `Unescape` is checked against.
- `KvStore` (`kv.dfy`):
  - the key layout (`latest`, `tweet-<id>`);
  - a `Snapshot` value with `Get` and `Put`; TTLs are recorded, time is not modelled;
  - the `Namespace` class, whose `put` updates its maps in place.
- `Mastodon` (`mastodon.dfy`), from `src/mastodon.ts`:
  - reply-target selection;
  - the key-filtering loop of `uploadMedia`, whose result ids form a multiset;
  - the status that is published.
- `Worker` (`worker.dfy`), from `src/index.ts`:
  - the local `postMastodonStatus`;
  - the `scheduled` handler as the method `Scheduled`. It updates the namespace in place with a down-counting loop and is proved equal to the function `Cycle`. The properties of the cycle are lemmas about `Cycle`.

Network calls are function-typed parameters:

- fetching the timeline;
- publishing a status;
- uploading one media item.

`None` from one of them means the awaited call threw, which ends the handler where it stands.

Three points of behaviour are easy to misread, and the model follows the code in each:

- **Text expansion.** `expandEntities` does not rewrite the annotations at their offsets. It searches and replaces the first occurrence of each one: every link first, then every mention.
- **Mapping key prefix.** Mappings are stored under `tweet-<id>`.
- **Published body in `src/index.ts`.** The `scheduled` handler in `src/index.ts` uses that file's own `postMastodonStatus`. That function publishes the raw tweet text, with no entity decoding and no media. It also looks up a reply target for a conversation root.

The code says only that tweet text keeps escape codes (`src/mastodon.ts:76`); it does not say which characters were escaped. `Escape` is therefore a reference escaping of the five characters that `Unescape` decodes, not a model of the network. Because `&amp;` is decoded first, a literal `&lt;` in the original text comes back as `<`. Text without a literal `&` is a sufficient condition for `Unescape` to invert `Escape` (`Utils.UnescapeEscape`). `Utils.UnescapeNotInverse` shows that some restriction is needed.

## Model

| member | source | states |
|---|---|---|
| Strings.IndexOf | src/utils.ts:24 | the result is the leftmost occurrence of the pattern; it is absent exactly when the pattern does not occur |
| Strings.ReplaceFirst | src/utils.ts:24-26 | `replace` with a string pattern returns the text unchanged when the pattern does not occur; otherwise it splices the replacement in at the leftmost occurrence |
| Strings.ReplaceAll | src/utils.ts:5-9 | a replacement no longer than its pattern never lengthens the text |
| Strings.ReplaceAllNoOccurrence | src/utils.ts:5-9 | text in which the pattern does not occur is returned unchanged |
| Strings.ReplaceAllLeading | src/utils.ts:5-9 | a leading occurrence is replaced and the scan resumes after it, so occurrences do not overlap |
| Strings.ReplaceAllSkip | src/utils.ts:5-9 | when no occurrence starts inside the prefix `a` of `a + t`, the scan copies `a` unchanged and continues on `t` |
| Strings.ReplaceFirstAfter | src/utils.ts:24-26 | when the occurrence right after `pre` is the first one in the text, `replace` rewrites exactly that one |
| Strings.BlockedNoOccurrence | src/utils.ts:24-26 | a prefix in which no occurrence can begin (a two-character test) has no occurrence starting inside it, whatever follows |
| Utils.Unescape | src/utils.ts:3-10 | decoding never lengthens the text |
| Utils.UnescapeAmpersandFree | src/utils.ts:4-9 | text without `&` is returned unchanged |
| Utils.UnescapeEntity | src/utils.ts:5-9 | each of `&amp;`, `&lt;`, `&gt;`, `&quot;`, `&#39;` on its own decodes to its character |
| Utils.UnescapeDecodesTwice | src/utils.ts:5-6 | `&amp;lt;` decodes to `<`, because `&amp;` is decoded first |
| Utils.DecodePass | src/utils.ts:5-9 | each pass turns exactly one entity back into its character and leaves the others encoded |
| Utils.UnescapeEscape | src/utils.ts:3-10 | decoding inverts the reference escaping of the five characters for text without a literal `&`; that condition is sufficient |
| Utils.UnescapeNotInverse | src/utils.ts:5-6 | a literal `&lt;` is escaped to `&amp;lt;` and decodes to `<`, so decoding does not invert the reference escaping on all text and some restriction is needed |
| Utils.IsAttachedMedia | src/utils.ts:20-21 | definition: a link counts as attached media when it has a non-empty media key that the attachments list |
| Utils.ExpandUrls | src/utils.ts:17-29 | definition: the links' rewrites applied in list order; properties in `ExpandUrlsUnexpanded`, and through `Expand` in `ExpandDropsAttachedLink`, `ExpandLinkThenMention` and `ExpandMentionInsideLink` |
| Utils.ExpandMentions | src/utils.ts:31-36 | definition: the mentions' rewrites applied in list order; properties in `ExpandMentionAfter` |
| Utils.Expand | src/utils.ts:12-39 | definition: the link pass over `urls || []`, then the mention pass over `mentions || []`; what it computes is stated by `ExpandEntities`, `ExpandLinkThenMention`, `ExpandMentionInsideLink` |
| Utils.ExpandUrl | src/utils.ts:18-27 | a link without an expanded form, or one that does not occur, changes nothing. Otherwise its first occurrence becomes nothing when the link's media key is among the attachments, and the expanded URL when it is not |
| Utils.ExpandMention | src/utils.ts:32-35 | the first `@user` becomes `https://twitter.com/user`; text without `@user` is unchanged |
| Utils.ExpandEntities | src/utils.ts:12-39 | the two loops compute `Expand`: all links in list order, then all mentions. Absent lists count as empty, and with no links and no mentions the text is returned unchanged |
| Utils.ExpandLinks | src/utils.ts:17-29 | the first loop applies each link's rewrite in list order |
| Utils.ExpandProfileLinks | src/utils.ts:31-36 | the second loop applies each mention's rewrite in list order |
| Utils.ExpandUrlsUnexpanded | src/utils.ts:18 | links without an expanded form leave the text unchanged |
| Utils.ExpandUrlAfter | src/utils.ts:19-27 | when the link first occurs right after `pre`, that occurrence is replaced by nothing (attached media) or by the expanded URL |
| Utils.ExpandMentionAfter | src/utils.ts:32-35 | when `@user` first occurs right after `pre`, that occurrence becomes the profile link |
| Utils.ExpandOneEach | src/utils.ts:17-36 | with one link and one mention, the link pass runs before the mention pass |
| Utils.ExpandLinkThenMention | src/utils.ts:17-36 | an expanded link and a later mention, each at its first occurrence, are both rewritten, whatever the length change of the link |
| Utils.ExpandLinkAndMention | src/utils.ts:17-36 | `check http://t.co/x @bob` becomes `check https://example.com/page https://twitter.com/bob` |
| Utils.ExpandMentionInsideLink | src/utils.ts:17-36 | an `@user` inside an expanded link is the one the mention pass rewrites, because links are expanded first |
| Utils.ExpandDropsAttachedLink | src/utils.ts:19-24 | a link to an attached photo is deleted from the text |
| KvStore.TweetKey | src/index.ts:68 | definition: the mapping key `tweet-<id>`; properties in `TweetKeyInjective`, `TweetKeyNotLatest` |
| KvStore.Snapshot.Get | src/index.ts:58 | definition: the stored value, none for a missing key |
| KvStore.TweetKeyInjective | src/index.ts:68 | distinct tweet ids have distinct mapping keys |
| KvStore.TweetKeyNotLatest | src/index.ts:76 | no mapping key is the cursor key |
| KvStore.Snapshot.Put | src/index.ts:68-70 | `put` stores the value and its TTL (none without `expirationTtl`) and leaves every other key as it was |
| KvStore.Namespace.Get | src/index.ts:58 | `get` returns the stored value, or none for a missing key |
| KvStore.Namespace.Put | src/index.ts:68-70 | the namespace afterwards is the snapshot `put` of what it held |
| Mastodon.ReplyTarget | src/mastodon.ts:56-59 | there is no reply target when the conversation id is absent or empty or equals the tweet's id; otherwise it is the lookup of `tweet-<conversation id>`, which may be missing |
| Mastodon.FindMedia | src/mastodon.ts:14 | `find` returns the first catalog entry with the key and returns none exactly when no entry has it |
| Mastodon.UploadFor | src/mastodon.ts:14-27 | an upload starts exactly when the entry exists with a key and a URL; it carries a description exactly when the entry has a non-empty alt text |
| Mastodon.Selected | src/mastodon.ts:13-45 | at most one upload is started per media key |
| Mastodon.JoinAll | src/mastodon.ts:40-47 | the join succeeds exactly when every upload does; it then holds exactly the uploads' ids, one per upload, as a multiset |
| Mastodon.IdsInOrder | src/mastodon.ts:40-43 | the ids of successful uploads, one per upload and each upload's own id, in start order |
| Mastodon.UploadMedia | src/mastodon.ts:5-49 | the loop collects the uploads of the usable keys in key order; the result is their join |
| Mastodon.SelectedMembers | src/mastodon.ts:13-16 | an upload is started exactly for the keys whose entry yields it |
| Mastodon.SelectedAll | src/mastodon.ts:13-16 | when every key has a usable entry, one upload is started per key |
| Mastodon.SelectedSkips | src/mastodon.ts:13-16 | a key without an entry, or whose entry has no URL, contributes nothing, wherever it stands |
| Mastodon.SelectedSnoc | src/mastodon.ts:13-16 | each further key appends its upload, if any |
| Mastodon.OneIdPerKey | src/mastodon.ts:13-47 | when every key is usable and all uploads succeed, there is exactly one id per key |
| Mastodon.MediaKeys | src/mastodon.ts:65 | a tweet without attachments has no media keys |
| Mastodon.PostStatus | src/mastodon.ts:51-83 | the status is published only when every upload succeeds. It has the decoded text, the joined media ids and the reply target |
| Worker.Cursor | src/index.ts:58 | a missing or empty stored cursor is passed on as no cursor; otherwise it is passed as stored |
| Worker.LocalReplyTarget | src/index.ts:30-32 | the lookup of `tweet-<conversation id>` happens whenever the conversation id is non-empty; otherwise there is no reply target |
| Worker.PostStatus | src/index.ts:29-47 | the request holds the raw tweet text and the local reply target; the result is what publishing returns |
| Worker.LocalRootRepliesToItself | src/index.ts:30-32 | a conversation root whose mapping exists replies to its own earlier mirror here, where `src/mastodon.ts` sets no reply target |
| Worker.Fetched | src/index.ts:18-27 | definition: the timeline fetched with the stored cursor, `data || []`, none when the fetch threw |
| Worker.LocalRequest | src/index.ts:29-44 | definition: the body this file publishes, the raw text and the local reply target |
| Worker.PublishBackward | src/index.ts:63-73 | definition: the loop from the last tweet to the first, each published then mapped for seven days, stopping at the first publish that throws; properties in the lemmas below |
| Worker.Cycle | src/index.ts:53-78 | definition: read the cursor, fetch, run the loop, and move the cursor to `tweets[0].id` only when the loop completed over a non-empty batch; properties in the `Cycle…` lemmas |
| Worker.StoppedStaysStopped | src/index.ts:63-73 | once a publish throws, the newer tweets are neither published nor mapped |
| Worker.PublishedOldestFirst | src/index.ts:63-67 | the k-th published tweet is `tweets[length-1-k]`. All are published exactly when the loop completes, and each logged status is what publishing returned for the tweet's text |
| Worker.MappingsRecorded | src/index.ts:67-70 | after the loop, each published tweet's key maps to its status id with TTL `60*60*24*7` |
| Worker.PublishBackwardFrame | src/index.ts:63-73 | the loop writes no key other than the mapping keys of the tweets it published, so the keys of a tweet whose publish threw and of every newer one keep their entries unless another published tweet shares them |
| Worker.ThreadInOneBatch | src/index.ts:63-70 | in a batch of exactly a root and its reply, the root is published first with no reply target, then the reply replies to the root's new status |
| Worker.RunExtends | src/index.ts:63-70 | in a completed run, the run over the tweets older than `tweets[i]` is a completed prefix of the log, and `tweets[i]` is published next with the reply target looked up in the store those older tweets' puts left |
| Worker.RunStep | src/index.ts:63-70 | a completed run over a non-empty batch is the completed run over the older tweets followed by the newest tweet, published with the store those runs left |
| Worker.ThreadAnywhereInBatch | src/index.ts:63-70 | a root and a reply anywhere in one batch of distinct ids: once the batch is published, the reply's request replies to the status the root was published as |
| Worker.CycleOldestFirst | src/index.ts:63-64 | a cycle publishes the fetched tweets oldest first, all of them when it completes |
| Worker.CycleRecordsMappings | src/index.ts:67-70 | after a cycle every published tweet is mapped to its status for seven days |
| Worker.CycleAdvancesCursor | src/index.ts:75-77 | a completed cycle over a non-empty batch sets `latest` to the first (newest) fetched id, without expiry |
| Worker.CycleHoldsCursorOnFailure | src/index.ts:67-77 | a cycle that throws leaves `latest` exactly as it was |
| Worker.CycleWritesOnlyItsKeys | src/index.ts:58-77 | a cycle writes only `latest` and the mapping keys of the tweets it published; a cycle whose fetch threw writes nothing |
| Worker.CycleIdleWhenNothingNew | src/index.ts:63-77 | an empty fetch completes without publishing and leaves the store unchanged, and so does a second such cycle |
| Worker.CycleResponseWithoutData | src/index.ts:26 | a response without `data` is an empty batch |
| Worker.CycleWithoutCursor | src/index.ts:58-59 | a store without `latest` fetches with no `since_id` |
| Worker.Scheduled | src/index.ts:53-78 | the handler's loop leaves the namespace, the log and the completion flag exactly as `Cycle` computes them from the namespace it started with |

## Left out

- Network I/O is not modelled: HTTP requests, JSON parsing, `FormData`/`Blob` handling and the headers. Fetching the timeline, publishing a status and uploading one media item are function parameters.
- `src/twitter.ts` is not part of this model. It only configures the API client, and its payload types appear here as datatypes.
- The query parameters of `getTweets` (replies excluded, extra fields) belong to the fetch function parameter.
- The order of uploaded media ids is not modelled. They are pushed by concurrent callbacks, so the model keeps only their multiset.
- A concurrent run of two cycles is not modelled either.
- Key expiry: the TTL is recorded, and time and eventual consistency are not modelled.
- `$` patterns in replacement strings of `replace` are not modelled. Replacements are inserted literally.
- `replaceAll` with an empty pattern is not modelled, since the code only calls it with the five constant entities.
- Logging and the no-op `fetch` handler are left out. They have no effect on the mirror's state.
- A Mastodon response without an `id` is not modelled. A publish either throws or yields an id.
- Oracles are deterministic functions, so a repeated call with the same argument is assumed to give the same answer.
- Worker.MappingsRecorded: assumes the fetched tweets have distinct ids, as timeline ids are. With a repeated id the later write wins, and that case is not stated.
- Worker.CycleRecordsMappings: the same distinct-id assumption.
- Strings are sequences of Dafny `char`, which is a Unicode scalar value, while a JavaScript string is a sequence of UTF-16 code units. For text outside the Basic Multilingual Plane (an emoji, say) lengths and indices therefore differ from JavaScript's; the results of search and replace agree for well-formed text. There is no normalisation.
