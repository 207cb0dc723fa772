/**
 * The post card on the blog list: the title and a short preview of the
 * content in the page's locale (falling back to English), a link to the
 * post in the locale of the route, and the featured image when there is one.
 * The preview removes every `<...>` span and cuts the text to 80 characters.
 */
module BlogPostCard {
  import opened Wrappers
  import opened JsStrings
  import opened Localize
  import opened LocalePaths

  /** No `<` is followed, anywhere later, by a `>`: the text holds no `<...>` span. */
  predicate NoTag(s: string) {
    forall i, j :: 0 <= i < j < |s| && s[i] == '<' ==> s[j] != '>'
  }

  /**
   * `s.replace(/<[^>]*>/g, '')`: at a `<` that has a `>` somewhere after it,
   * the match runs to the first such `>` and is dropped; a `<` with no `>`
   * after it is not a match and is kept.
   */
  function StripTags(s: string): (r: string)
    ensures |r| <= |s|
    ensures forall c :: c in r ==> c in s
    ensures NoTag(r)
    decreases |s|
  {
    if |s| == 0 then ""
    else if s[0] == '<' && '>' in s[1..] then
      var close := IndexOfChar(s[1..], '>') + 1;
      var rest := StripTags(s[close + 1..]);
      assert forall c :: c in s[close + 1..] ==> c in s;
      rest
    else
      var rest := StripTags(s[1..]);
      assert forall c :: c in s[1..] ==> c in s;
      assert s[0] == '<' ==> '>' !in rest;
      [s[0]] + rest
  }

  /** Text without `<` is copied, and stripping goes on after it. */
  lemma {:induction false} StripPlainPrefix(t: string, rest: string)
    requires '<' !in t
    ensures StripTags(t + rest) == t + StripTags(rest)
    decreases |t|
  {
    if |t| > 0 {
      assert t[0] in t;
      assert (t + rest)[0] == t[0] && (t + rest)[1..] == t[1..] + rest;
      StripPlainPrefix(t[1..], rest);
      assert t == [t[0]] + t[1..];
    } else {
      assert t + rest == rest;
    }
  }

  /**
   * A match: after text without `<`, a `<` whose span `u` holds no `>` is
   * dropped together with `u` and the closing `>`.
   */
  lemma StripMatch(t: string, u: string, rest: string)
    requires '<' !in t && '>' !in u
    ensures StripTags(t + "<" + u + ">" + rest) == t + StripTags(rest)
  {
    var s := "<" + u + ">" + rest;
    assert s[1..] == u + ['>'] + rest;
    IndexOfCharAfter(u, '>', rest);
    assert s[|u| + 2..] == rest;
    assert t + "<" + u + ">" + rest == t + s;
    StripPlainPrefix(t, s);
  }

  /** No match: a `<` with no `>` anywhere after it is kept. */
  lemma StripUnmatched(u: string)
    requires '>' !in u
    ensures StripTags("<" + u) == "<" + StripTags(u)
  {
    assert ("<" + u)[1..] == u;
  }

  /** Text with no `<...>` span is left as it is. */
  lemma {:induction false} TagFreeUnchanged(s: string)
    requires NoTag(s)
    ensures StripTags(s) == s
  {
    if |s| > 0 {
      if s[0] == '<' {
        forall j | 0 <= j < |s[1..]| ensures s[1..][j] != '>' {
          assert s[j + 1] == s[1..][j];
        }
      }
      assert NoTag(s[1..]) by {
        forall i, j | 0 <= i < j < |s[1..]| && s[1..][i] == '<' ensures s[1..][j] != '>' {
          assert s[1..][i] == s[i + 1] && s[1..][j] == s[j + 1];
        }
      }
      TagFreeUnchanged(s[1..]);
    }
  }

  /** Stripping twice is stripping once. */
  lemma StripIdempotent(s: string)
    ensures StripTags(StripTags(s)) == StripTags(s)
  {
    TagFreeUnchanged(StripTags(s));
  }

  /** A slice of a tag-free text is tag-free. */
  lemma SliceNoTag(s: string, a: nat, b: nat)
    requires NoTag(s) && a <= b <= |s|
    ensures NoTag(s[a..b])
  {
    forall i, j | 0 <= i < j < b - a && s[a..b][i] == '<' ensures s[a..b][j] != '>' {
      assert s[a..b][i] == s[a + i] && s[a..b][j] == s[a + j];
    }
  }

  /** `trim` returns a slice of its input, starting where `trimStart` stops. */
  lemma TrimSlice(s: string)
    ensures var k := |s| - |TrimStart(s)|;
      k + |Trim(s)| <= |s| && Trim(s) == s[k..k + |Trim(s)|]
  {
    var t := TrimStart(s);
    var u := TrimEnd(t);
    PrefixOfSuffix(s, |s| - |t|, |u|);
  }

  lemma PrefixOfSuffix(s: string, k: nat, n: nat)
    requires k + n <= |s|
    ensures s[k..][..n] == s[k..k + n]
  {
  }

  /** The preview length the card passes, which is also `truncateContent`'s default. */
  const PreviewLength := 80

  function Clamp(n: int): nat {
    if n < 0 then 0 else n
  }

  /** The cut text: the trimmed first `n` characters of tag-free text, then a marker without `>`. */
  lemma CutShape(stripped: string, n: nat, marker: string)
    requires NoTag(stripped) && n <= |stripped| && '>' !in marker
    ensures var r := Trim(stripped[..n]) + marker;
      && |r| <= n + |marker|
      && r[|r| - |marker|..] == marker
      && Trim(r[..|r| - |marker|]) == r[..|r| - |marker|]
      && NoTag(r)
  {
    var head := stripped[..n];
    var t := Trim(head);
    assert NoTag(t) by {
      TrimSlice(head);
      SliceNoTag(stripped, 0, n);
      var k := |head| - |TrimStart(head)|;
      SliceNoTag(head, k, k + |t|);
    }
    assert Trim(t) == t by {
      TrimIdempotent(head);
    }
    assert (t + marker)[..|t|] == t;
    AppendNoTag(t, marker);
  }

  /** Appending text without `>` keeps a text tag-free. */
  lemma AppendNoTag(t: string, e: string)
    requires NoTag(t) && '>' !in e
    ensures NoTag(t + e)
  {
    var r := t + e;
    forall i, j | 0 <= i < j < |r| && r[i] == '<' ensures r[j] != '>' {
      if j >= |t| {
        assert r[j] == e[j - |t|];
      } else {
        assert r[i] == t[i] && r[j] == t[j];
      }
    }
  }

  /**
   * `stripped.substring(0, n).trim() + '...'`: the first `n` characters with
   * the white space at both ends removed, then the marker.
   */
  function Cut(stripped: string, n: nat): (r: string)
    requires NoTag(stripped) && n <= |stripped|
    ensures |r| >= 3 && |r| <= n + 3
    ensures r[|r| - 3..] == "..."
    ensures IsTrimOf(r[..|r| - 3], stripped[..n])
    ensures Trim(r[..|r| - 3]) == r[..|r| - 3]
    ensures NoTag(r)
  {
    assert '>' !in "...";
    CutShape(stripped, n, "...");
    var t := Trim(stripped[..n]);
    TrimIsTrimOf(t, stripped[..n]);
    assert (t + "...")[..|t|] == t;
    t + "..."
  }

  /**
   * `truncateContent(content, maxLength)`: the stripped text when it fits,
   * otherwise its first `maxLength` characters (none for a negative length,
   * as `substring` clamps), trimmed, followed by "...".
   */
  function TruncateContent(content: string, maxLength: int): (r: string)
    ensures |StripTags(content)| <= maxLength ==> r == StripTags(content)
    ensures |StripTags(content)| > maxLength ==>
      && |r| >= 3 && r[|r| - 3..] == "..."
      && |r| <= Clamp(maxLength) + 3
      && IsTrimOf(r[..|r| - 3], StripTags(content)[..Clamp(maxLength)])
      && Trim(r[..|r| - 3]) == r[..|r| - 3]
    ensures NoTag(r)
  {
    var stripped := StripTags(content);
    if |stripped| <= maxLength then stripped else Cut(stripped, Clamp(maxLength))
  }

  /** A preview of text that already fits and has no tags is the text itself. */
  lemma ShortTextShownWhole(content: string, maxLength: int)
    requires NoTag(content) && |content| <= maxLength
    ensures TruncateContent(content, maxLength) == content
  {
    TagFreeUnchanged(content);
  }

  datatype CardPost = CardPost(
    title: LocalizedText, description: LocalizedText, content: Option<LocalizedText>,
    slug: string, imageUrl: string)

  /** What the card shows: the image (its `src`; `alt` is the title), title, link and preview. */
  datatype Card = Card(image: Option<string>, title: string, href: string, preview: string)

  /** `post.content?.[locale] || post.content?.['en'] || ''`. */
  function ContentIn(post: CardPost, locale: string): (r: string)
    ensures post.content.None? ==> r == ""
    ensures post.content.Some? ==> r == Resolve(post.content.value, locale)
  {
    match post.content
    case Some(m) => Resolve(m, locale)
    case None => ""
  }

  /**
   * The card. Texts use the `locale` prop; the link uses the route's locale
   * parameter (English when absent), which may differ from the prop.
   */
  function RenderCard(post: CardPost, locale: string, routeLocale: Option<string>): (c: Card)
    ensures c.image.Some? <==> post.imageUrl != ""
    ensures c.image.Some? ==> c.image.value == post.imageUrl
    ensures c.title == Resolve(post.title, locale)
    ensures c.href == LocalizedPath(RouteLocale(routeLocale), PostPath(post.slug))
    ensures c.preview == TruncateContent(ContentIn(post, locale), PreviewLength)
    ensures NoTag(c.preview) && |c.preview| <= PreviewLength + 3
  {
    var preview := TruncateContent(ContentIn(post, locale), PreviewLength);
    Card(if post.imageUrl != "" then Some(post.imageUrl) else None,
         Resolve(post.title, locale),
         LocalizedPath(RouteLocale(routeLocale), PostPath(post.slug)),
         preview)
  }

  /**
   * The link does not depend on the `locale` prop, and on a route with no
   * locale parameter it is the bare English post path.
   */
  lemma CardLinkFollowsRoute(post: CardPost, l1: string, l2: string, routeLocale: Option<string>)
    ensures RenderCard(post, l1, routeLocale).href == RenderCard(post, l2, routeLocale).href
    ensures RenderCard(post, l1, None).href == "/apps/" + post.slug + ".html"
  {
  }
}
