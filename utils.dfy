/**
 * Text rewriting of src/utils.ts: decoding the HTML entities the source
 * network leaves in tweet text, and expanding shortened links and mentions.
 */
module Utils {
  import opened Wrappers
  import opened Strings
  import opened Twitter

  /*
   * Entity decoding
   */

  /** `unescapeString`: five `replaceAll` passes, `&amp;` first. */
  function Unescape(s: string): (r: string)
    ensures |r| <= |s|
  {
    ReplaceAll(
      ReplaceAll(
        ReplaceAll(
          ReplaceAll(
            ReplaceAll(s, "&amp;", "&"),
            "&lt;", "<"),
          "&gt;", ">"),
        "&quot;", "\""),
      "&#39;", "'")
  }

  /** A pattern whose first character is missing from `s` does not occur in `s`. */
  lemma LeadMissingNoOccurrence(s: string, p: string)
    requires |p| > 0 && p[0] !in s
    ensures !Occurs(s, p)
  {
    forall i: nat | i + |p| <= |s| ensures !OccursAt(s, p, i) {
      assert s[i..i + |p|][0] == s[i];
    }
  }

  /** Text without an ampersand contains no entity and is returned unchanged. */
  lemma UnescapeAmpersandFree(s: string)
    requires '&' !in s
    ensures Unescape(s) == s
  {
    LeadMissingNoOccurrence(s, "&amp;");
    ReplaceAllNoOccurrence(s, "&amp;", "&");
    LeadMissingNoOccurrence(s, "&lt;");
    ReplaceAllNoOccurrence(s, "&lt;", "<");
    LeadMissingNoOccurrence(s, "&gt;");
    ReplaceAllNoOccurrence(s, "&gt;", ">");
    LeadMissingNoOccurrence(s, "&quot;");
    ReplaceAllNoOccurrence(s, "&quot;", "\"");
    LeadMissingNoOccurrence(s, "&#39;");
    ReplaceAllNoOccurrence(s, "&#39;", "'");
  }

  /**
   * `&amp;` is decoded before the other entities, so the `&` it produces
   * can start a second entity: `&amp;lt;` decodes all the way to `<`.
   */
  lemma UnescapeDecodesTwice()
    ensures Unescape("&amp;lt;") == "<"
  {
  }

  /*
   * A reference escaping of the five characters that `Unescape` decodes,
   * each written as its entity. The code says only that tweet text keeps
   * escape codes; which characters the network escapes is not stated, so
   * this is the yardstick `Unescape` is measured against, not a model of
   * the network.
   */

  const EscapedChars: set<char> := {'&', '<', '>', '"', '\''}

  /** The entity that stands for an escaped character. */
  function Entity(c: char): (r: string)
    requires c in EscapedChars
    ensures |r| >= 4 && r[0] == '&'
  {
    if c == '&' then "&amp;"
    else if c == '<' then "&lt;"
    else if c == '>' then "&gt;"
    else if c == '"' then "&quot;"
    else "&#39;"
  }

  /** How one character of `s` is written when the characters in `chars` are escaped. */
  function Token(d: char, chars: set<char>): string
    requires chars <= EscapedChars
  {
    if d in chars then Entity(d) else [d]
  }

  /** `s` with only the characters in `chars` escaped. */
  function EscapeOnly(s: string, chars: set<char>): string
    requires chars <= EscapedChars
  {
    if s == [] then [] else Token(s[0], chars) + EscapeOnly(s[1..], chars)
  }

  /** `s` with all five characters escaped. */
  function Escape(s: string): string
  {
    EscapeOnly(s, EscapedChars)
  }

  lemma {:induction false} EscapeOnlyNothing(s: string)
    ensures EscapeOnly(s, {}) == s
  {
    if s != [] {
      EscapeOnlyNothing(s[1..]);
      assert [s[0]] + s[1..] == s;
    }
  }

  /**
   * No occurrence of the entity of `c` starts inside the token of another
   * character `d`, provided a bare `&` cannot appear.
   */
  lemma TokenBlocked(d: char, chars: set<char>, c: char)
    requires chars <= EscapedChars && c in chars && d != c
    requires '&' in chars || d != '&'
    ensures NoMatchStartsIn(Token(d, chars), Entity(c))
  {
    var a, p := Token(d, chars), Entity(c);
    if d in chars {
      forall j | 0 <= j < |a| ensures StartBlocked(a, p, j) {
        if j == 0 {
          assert a[1] != p[1] by {
            if d == '&' {} else if d == '<' {} else if d == '>' {} else if d == '"' {} else {}
          }
        } else {
          assert a[j] != '&' by {
            if d == '&' {} else if d == '<' {} else if d == '>' {} else if d == '"' {} else {}
          }
        }
      }
    } else {
      assert StartBlocked(a, p, 0);
    }
  }

  /** One decoding pass turns the entity of `c` back into `c` and touches nothing else. */
  lemma {:induction false} DecodePass(s: string, chars: set<char>, c: char)
    requires chars <= EscapedChars && c in chars
    requires '&' in chars || '&' !in s
    ensures ReplaceAll(EscapeOnly(s, chars), Entity(c), [c]) == EscapeOnly(s, chars - {c})
    decreases |s|
  {
    var p := Entity(c);
    if s == [] {
      assert ReplaceAll([], p, [c]) == [];
    } else {
      var d, t := s[0], EscapeOnly(s[1..], chars);
      DecodePass(s[1..], chars, c);
      if d == c {
        ReplaceAllLeading(p, t, [c]);
      } else {
        assert Token(d, chars) == Token(d, chars - {c});
        TokenBlocked(d, chars, c);
        BlockedNoOccurrence(Token(d, chars), t, p);
        ReplaceAllSkip(Token(d, chars), t, p, [c]);
      }
    }
  }

  /**
   * Decoding inverts the reference escaping for text without a literal
   * ampersand. That condition is sufficient; `UnescapeNotInverse` shows that
   * some restriction is needed.
   */
  lemma UnescapeEscape(s: string)
    requires '&' !in s
    ensures Unescape(Escape(s)) == s
  {
    var e0 := EscapedChars;
    var e1 := {'<', '>', '"', '\''};
    var e2 := {'>', '"', '\''};
    var e3 := {'"', '\''};
    var e4 := {'\''};
    var x1 := ReplaceAll(EscapeOnly(s, e0), "&amp;", "&");
    assert x1 == EscapeOnly(s, e1) by {
      DecodePass(s, e0, '&');
      assert e0 - {'&'} == e1;
    }
    var x2 := ReplaceAll(x1, "&lt;", "<");
    assert x2 == EscapeOnly(s, e2) by {
      DecodePass(s, e1, '<');
      assert e1 - {'<'} == e2;
    }
    var x3 := ReplaceAll(x2, "&gt;", ">");
    assert x3 == EscapeOnly(s, e3) by {
      DecodePass(s, e2, '>');
      assert e2 - {'>'} == e3;
    }
    var x4 := ReplaceAll(x3, "&quot;", "\"");
    assert x4 == EscapeOnly(s, e4) by {
      DecodePass(s, e3, '"');
      assert e3 - {'"'} == e4;
    }
    var x5 := ReplaceAll(x4, "&#39;", "'");
    assert x5 == EscapeOnly(s, {}) by {
      DecodePass(s, e4, '\'');
      assert e4 - {'\''} == {};
    }
    EscapeOnlyNothing(s);
  }

  /** Each of the five entities on its own decodes to its character. */
  lemma UnescapeEntity(c: char)
    requires c in EscapedChars
    ensures Unescape(Entity(c)) == [c]
  {
    if c == '&' {
      ReplaceAllLeading("&amp;", [], "&");
      assert ReplaceAll("&amp;", "&amp;", "&") == "&";
    } else {
      assert Escape([c]) == Entity(c) by {
        assert [c][1..] == [];
        assert EscapeOnly([], EscapedChars) == [];
        assert Token(c, EscapedChars) == Entity(c);
      }
      UnescapeEscape([c]);
    }
  }

  /** A literal `&lt;` in the original text comes back as `<`. */
  lemma UnescapeNotInverse()
    ensures Escape("&lt;") == "&amp;lt;"
    ensures Unescape(Escape("&lt;")) == "<"
  {
    UnescapeDecodesTwice();
  }

  /*
   * Link and mention expansion
   */

  /** A link stands for attached media when it has a non-empty media key that the attachments list. */
  predicate IsAttachedMedia(e: UrlEntity, attachments: Option<Attachments>)
  {
    && Truthy(e.mediaKey)
    && attachments.Some?
    && attachments.value.mediaKeys.Some?
    && e.mediaKey.value in attachments.value.mediaKeys.value
  }

  /**
   * One pass of the first loop of `expandEntities`. A link with an expanded
   * form has its first occurrence replaced: by nothing when it points at an
   * attachment of the tweet, by the expanded form otherwise.
   */
  function ExpandUrl(s: string, e: UrlEntity, attachments: Option<Attachments>): (r: string)
    ensures !Truthy(e.expandedUrl) ==> r == s
    ensures !Occurs(s, e.url) ==> r == s
    ensures forall i: nat :: Truthy(e.expandedUrl) && IsFirstOccurrence(s, e.url, i) ==>
      r == s[..i] + (if IsAttachedMedia(e, attachments) then "" else e.expandedUrl.value) + s[i + |e.url|..]
  {
    if !Truthy(e.expandedUrl) then s
    else if IsAttachedMedia(e, attachments) then ReplaceFirst(s, e.url, "")
    else ReplaceFirst(s, e.url, e.expandedUrl.value)
  }

  /** One pass of the second loop: the first `@user` becomes the profile link of `user`. */
  function ExpandMention(s: string, m: MentionEntity): (r: string)
    ensures !Occurs(s, "@" + m.username) ==> r == s
    ensures forall i: nat :: IsFirstOccurrence(s, "@" + m.username, i) ==>
      r == s[..i] + "https://twitter.com/" + m.username + s[i + 1 + |m.username|..]
  {
    ReplaceFirst(s, "@" + m.username, "https://twitter.com/" + m.username)
  }

  /** The first loop over `urls`, in list order. */
  function ExpandUrls(s: string, urls: seq<UrlEntity>, attachments: Option<Attachments>): string
    decreases |urls|
  {
    if urls == [] then s
    else ExpandUrl(ExpandUrls(s, urls[..|urls| - 1], attachments), urls[|urls| - 1], attachments)
  }

  /** The second loop over `mentions`, in list order. */
  function ExpandMentions(s: string, mentions: seq<MentionEntity>): string
    decreases |mentions|
  {
    if mentions == [] then s
    else ExpandMention(ExpandMentions(s, mentions[..|mentions| - 1]), mentions[|mentions| - 1])
  }

  /** `expandEntities` as a function: every link first, then every mention. */
  function Expand(s: string, entities: Entities, attachments: Option<Attachments>): string
  {
    ExpandMentions(ExpandUrls(s, OrEmpty(entities.urls), attachments), OrEmpty(entities.mentions))
  }

  /** `expandEntities`: two loops that rewrite the text in place, links first. */
  method ExpandEntities(s: string, entities: Entities, attachments: Option<Attachments>) returns (r: string)
    ensures r == Expand(s, entities, attachments)
    ensures OrEmpty(entities.urls) == [] && OrEmpty(entities.mentions) == [] ==> r == s
  {
    r := ExpandLinks(s, OrEmpty(entities.urls), attachments);
    r := ExpandProfileLinks(r, OrEmpty(entities.mentions));
  }

  /** The first loop of `expandEntities`. */
  method ExpandLinks(s: string, urls: seq<UrlEntity>, attachments: Option<Attachments>) returns (r: string)
    ensures r == ExpandUrls(s, urls, attachments)
  {
    r := s;
    for i := 0 to |urls|
      invariant r == ExpandUrls(s, urls[..i], attachments)
    {
      var entity := urls[i];
      ghost var before := r;
      if Truthy(entity.expandedUrl) {
        if IsAttachedMedia(entity, attachments) {
          // a link to an attachment is dropped: the media is attached natively
          r := ReplaceFirst(r, entity.url, "");
        } else {
          r := ReplaceFirst(r, entity.url, entity.expandedUrl.value);
        }
      }
      assert r == ExpandUrl(before, entity, attachments);
      assert urls[..i + 1][..i] == urls[..i];
    }
    assert urls[..|urls|] == urls;
  }

  /** The second loop of `expandEntities`. */
  method ExpandProfileLinks(s: string, mentions: seq<MentionEntity>) returns (r: string)
    ensures r == ExpandMentions(s, mentions)
  {
    r := s;
    for i := 0 to |mentions|
      invariant r == ExpandMentions(s, mentions[..i])
    {
      var entity := mentions[i];
      r := ReplaceFirst(r, "@" + entity.username, "https://twitter.com/" + entity.username);
      assert mentions[..i + 1][..i] == mentions[..i];
    }
    assert mentions[..|mentions|] == mentions;
  }

  /** Links without an expanded form leave the text as it is. */
  lemma {:induction false} ExpandUrlsUnexpanded(s: string, urls: seq<UrlEntity>, attachments: Option<Attachments>)
    requires forall k :: 0 <= k < |urls| ==> !Truthy(urls[k].expandedUrl)
    ensures ExpandUrls(s, urls, attachments) == s
    decreases |urls|
  {
    if urls != [] {
      ExpandUrlsUnexpanded(s, urls[..|urls| - 1], attachments);
    }
  }

  /** The link pass rewrites the occurrence that follows `pre` when none starts earlier. */
  lemma ExpandUrlAfter(pre: string, link: UrlEntity, rest: string, attachments: Option<Attachments>)
    requires Truthy(link.expandedUrl) && NoOccurrenceBefore(pre + link.url + rest, link.url, |pre|)
    ensures ExpandUrl(pre + link.url + rest, link, attachments)
         == pre + (if IsAttachedMedia(link, attachments) then "" else link.expandedUrl.value) + rest
  {
    ReplaceFirstAfter(pre, link.url, rest, if IsAttachedMedia(link, attachments) then "" else link.expandedUrl.value);
  }

  /** The mention pass rewrites the `@user` that follows `pre` when none starts earlier. */
  lemma ExpandMentionAfter(pre: string, user: string, rest: string)
    requires NoOccurrenceBefore(pre + "@" + user + rest, "@" + user, |pre|)
    ensures ExpandMention(pre + "@" + user + rest, MentionEntity(user))
         == pre + "https://twitter.com/" + user + rest
  {
    assert pre + "@" + user + rest == pre + ("@" + user) + rest;
    ReplaceFirstAfter(pre, "@" + user, rest, "https://twitter.com/" + user);
    assert pre + ("https://twitter.com/" + user) + rest == pre + "https://twitter.com/" + user + rest;
  }

  /**
   * A tweet with one expanded link and one mention: the link's first
   * occurrence is expanded, then the first `@user` of the result becomes a
   * profile link, whatever the length change the link expansion caused.
   */
  lemma ExpandLinkThenMention(pre: string, link: UrlEntity, mid: string, user: string, post: string)
    requires Truthy(link.expandedUrl)
    requires NoOccurrenceBefore(pre + link.url + mid + "@" + user + post, link.url, |pre|)
    requires NoOccurrenceBefore(pre + link.expandedUrl.value + mid + "@" + user + post, "@" + user,
                                |pre| + |link.expandedUrl.value| + |mid|)
    ensures Expand(pre + link.url + mid + "@" + user + post,
                   Entities(Some([link]), Some([MentionEntity(user)])), None)
         == pre + link.expandedUrl.value + mid + "https://twitter.com/" + user + post
  {
    var expanded, tail := link.expandedUrl.value, "@" + user + post;
    Regroup(pre, link.url, mid, "@", user, post);
    ExpandOneEach(pre + link.url + (mid + tail), link, user);
    LinkAfterText(pre, link, mid + tail);
    Regroup(pre, expanded, mid, "@", user, post);
    ExpandMentionAfter(pre + expanded + mid, user, post);
  }

  /** Regrouping a text split after its head. */
  lemma SplitAfterHead(a: string, b: string, c: string)
    ensures a + b + c == a + (b + c)
  {
  }

  /** Regrouping the six-part texts of `ExpandLinkThenMention`. */
  lemma Regroup(a: string, b: string, c: string, d: string, e: string, f: string)
    ensures a + b + c + d + e + f == a + b + (c + (d + e + f))
  {
  }

  /** The link pass with no attachments: the occurrence after `pre` becomes the expanded form. */
  lemma LinkAfterText(pre: string, link: UrlEntity, rest: string)
    requires Truthy(link.expandedUrl)
    requires NoOccurrenceBefore(pre + link.url + rest, link.url, |pre|)
    ensures ExpandUrl(pre + link.url + rest, link, None) == pre + link.expandedUrl.value + rest
  {
    assert !IsAttachedMedia(link, None);
    ExpandUrlAfter(pre, link, rest, None);
  }

  /** The literal case: the mention is found after the longer expanded link. */
  lemma ExpandLinkAndMention(text: string, link: UrlEntity, mention: MentionEntity)
    requires text == "check http://t.co/x @bob"
    requires link == UrlEntity("http://t.co/x", Some("https://example.com/page"), None)
    requires mention == MentionEntity("bob")
    ensures Expand(text, Entities(Some([link]), Some([mention])), None)
         == "check https://example.com/page https://twitter.com/bob"
  {
    var pre, expanded := "check ", link.expandedUrl.value;
    CheckLinkFirst(pre, link.url);
    CheckMentionFirst(pre, expanded);
    assert text == pre + link.url + " " + "@" + "bob" + "";
    ExpandLinkThenMention(pre, link, " ", "bob", "");
    CheckResultSpelledOut();
  }

  /** In the literal text, the short link first occurs right after `check `. */
  lemma CheckLinkFirst(pre: string, url: string)
    requires pre == "check " && url == "http://t.co/x"
    ensures NoOccurrenceBefore(pre + url + " " + "@" + "bob" + "", url, |pre|)
  {
    CheckPrefixUnblocked(url);
    var t := url + " " + "@" + "bob" + "";
    BlockedNoOccurrence(pre, t, url);
    SplitAfterHead(pre, url, " " + "@" + "bob" + "");
    assert pre + url + " " + "@" + "bob" + "" == pre + t;
  }

  /** After the link is expanded, `@bob` first occurs after the expanded link and the space. */
  lemma CheckMentionFirst(pre: string, expanded: string)
    requires pre == "check " && expanded == "https://example.com/page"
    ensures NoOccurrenceBefore(pre + expanded + " " + "@" + "bob" + "", "@" + "bob", |pre| + |expanded| + |" "|)
  {
    LeadAbsentBlocked(pre + expanded + " ", "@bob");
    var head := pre + expanded + " ";
    assert "@" + "bob" == "@bob";
    BlockedNoOccurrence(head, "@" + "bob" + "", "@bob");
    assert head + ("@" + "bob" + "") == pre + expanded + " " + "@" + "bob" + "";
    assert |head| == |pre| + |expanded| + |" "|;
  }

  /** No occurrence of the short link starts in the leading `check `. */
  lemma CheckPrefixUnblocked(url: string)
    requires url == "http://t.co/x"
    ensures NoMatchStartsIn("check ", url)
  {
    forall j | 0 <= j < 6 ensures StartBlocked("check ", url, j) {
      if j == 0 {} else if j == 1 {} else if j == 2 {} else if j == 3 {} else if j == 4 {} else {}
    }
  }

  /** The literal result of `ExpandLinkAndMention`, spelled out piece by piece. */
  lemma CheckResultSpelledOut()
    ensures "check " + "https://example.com/page" + " " + "https://twitter.com/" + "bob" + ""
         == "check https://example.com/page https://twitter.com/bob"
  {
    assert "check " + "https://example.com/page" == "check https://example.com/page";
    assert "check https://example.com/page" + " " == "check https://example.com/page ";
    assert "check https://example.com/page " + "https://twitter.com/"
        == "check https://example.com/page https://twitter.com/";
    assert "check https://example.com/page https://twitter.com/" + "bob"
        == "check https://example.com/page https://twitter.com/bob";
  }

  /**
   * Links are expanded before any mention is looked for, so when an
   * expanded link itself contains `@user`, the mention pass rewrites that
   * `@user` inside the link and leaves the later one in the text alone.
   */
  lemma ExpandMentionInsideLink(pre: string, link: UrlEntity, a: string, user: string, b: string, rest: string)
    requires link.expandedUrl == Some(a + "@" + user + b)
    requires NoOccurrenceBefore(pre + link.url + rest, link.url, |pre|)
    requires NoOccurrenceBefore(pre + link.expandedUrl.value + rest, "@" + user, |pre| + |a|)
    ensures Expand(pre + link.url + rest, Entities(Some([link]), Some([MentionEntity(user)])), None)
         == pre + a + "https://twitter.com/" + user + b + rest
  {
    ExpandOneEach(pre + link.url + rest, link, user);
    LinkAfterText(pre, link, rest);
    MentionInsideText(pre, a, user, b, rest);
  }

  /** The mention pass on text whose first `@user` sits between `pre + a` and `b + rest`. */
  lemma MentionInsideText(pre: string, a: string, user: string, b: string, rest: string)
    requires NoOccurrenceBefore(pre + (a + "@" + user + b) + rest, "@" + user, |pre| + |a|)
    ensures ExpandMention(pre + (a + "@" + user + b) + rest, MentionEntity(user))
         == pre + a + "https://twitter.com/" + user + b + rest
  {
    assert pre + (a + "@" + user + b) + rest == (pre + a) + "@" + user + (b + rest);
    ExpandMentionAfter(pre + a, user, b + rest);
    assert (pre + a) + "https://twitter.com/" + user + (b + rest) == pre + a + "https://twitter.com/" + user + b + rest;
  }

  /** With one link and one mention, `Expand` is the link pass followed by the mention pass. */
  lemma ExpandOneEach(text: string, link: UrlEntity, user: string)
    ensures Expand(text, Entities(Some([link]), Some([MentionEntity(user)])), None)
         == ExpandMention(ExpandUrl(text, link, None), MentionEntity(user))
  {
    assert [link][..0] == [];
    assert ExpandUrls(text, [link], None) == ExpandUrl(text, link, None);
    var linked := ExpandUrl(text, link, None);
    assert [MentionEntity(user)][..0] == [];
    assert ExpandMentions(linked, [MentionEntity(user)]) == ExpandMention(linked, MentionEntity(user));
  }

  /** A link to an attachment of the tweet is deleted from the text. */
  lemma ExpandDropsAttachedLink(text: string, link: UrlEntity, attachments: Option<Attachments>)
    requires text == "look https://t.co/p"
    requires link == UrlEntity("https://t.co/p", Some("https://twitter.com/i/photo/1"), Some("3_1"))
    requires attachments == Some(Attachments(Some(["3_1"])))
    ensures Expand(text, Entities(Some([link]), None), attachments) == "look "
  {
    assert IsAttachedMedia(link, attachments);
    LeadAbsentBlocked("look ", link.url);
    BlockedNoOccurrence("look ", link.url + "", link.url);
    assert text == "look " + link.url + "" == "look " + (link.url + "");
    ExpandUrlAfter("look ", link, "", attachments);
    assert ExpandUrls(text, [link], attachments) == ExpandUrl(text, link, attachments);
  }
}
