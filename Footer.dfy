/**
 * The site footer: three fixed links (apps, privacy, contact) in the
 * route's locale and, except on a post page, an "Other Applications"
 * list with one link per post.
 */
module Footer {
  import opened Wrappers
  import opened Records
  import opened JsStrings
  import opened Localize
  import opened LocalePaths

  /** A post as the footer receives it: the title is a string or per locale. */
  datatype FooterPost = FooterPost(id: string, title: Text, slug: string)

  /** `pathname.includes('/apps/') && pathname.includes('.html')`. */
  predicate IsBlogDetailPage(pathname: string) {
    Includes(pathname, "/apps/") && Includes(pathname, ".html")
  }

  /**
   * The link text of a post: a string title as it is; otherwise
   * `m[locale] || m['en'] || Object.values(m)[0] || 'Untitled'`.
   */
  function PostTitle(title: Text, locale: string): (r: string)
    ensures title.Plain? ==> r == title.s
    ensures title.PerLocale? ==> r == ResolveOrFirst(title.m, locale, "Untitled")
    ensures title.PerLocale? ==> r != "" && (r == "Untitled" || r in Values(title.m))
  {
    match title
    case Plain(s) => s
    case PerLocale(m) =>
      LookupInValues(m, locale);
      LookupInValues(m, "en");
      ResolveOrFirst(m, locale, "Untitled")
  }

  datatype Link = Link(text: string, href: string)

  /** The "Other Applications" column: the list of posts, or the empty-list message. */
  datatype OtherApps = NoApplications | Applications(links: seq<Link>)

  datatype FooterView = FooterView(aboutLinks: seq<string>, others: Option<OtherApps>)

  function PostLink(post: FooterPost, locale: string): Link {
    Link(PostTitle(post.title, locale), LocalizedPath(locale, PostPath(post.slug)))
  }

  /**
   * The footer for a route locale parameter and a pathname. The column of
   * other applications is left out exactly on a post page.
   */
  function Render(blogs: seq<FooterPost>, routeLocale: Option<string>, pathname: string): (v: FooterView)
    ensures var locale := RouteLocale(routeLocale);
      v.aboutLinks == [LocalizedPath(locale, "/apps/"), LocalizedPath(locale, "/privacy.html"), LocalizedPath(locale, "/contact.html")]
    ensures v.others.None? <==> IsBlogDetailPage(pathname)
    ensures v.others.Some? ==> (v.others.value.NoApplications? <==> |blogs| == 0)
    ensures v.others.Some? && v.others.value.Applications? ==>
      && |v.others.value.links| == |blogs|
      && forall i :: 0 <= i < |blogs| ==>
        v.others.value.links[i] == Link(PostTitle(blogs[i].title, RouteLocale(routeLocale)),
                                        LocalizedPath(RouteLocale(routeLocale), PostPath(blogs[i].slug)))
  {
    var locale := RouteLocale(routeLocale);
    var about := [LocalizedPath(locale, "/apps/"), LocalizedPath(locale, "/privacy.html"), LocalizedPath(locale, "/contact.html")];
    if IsBlogDetailPage(pathname) then FooterView(about, None)
    else if |blogs| == 0 then FooterView(about, Some(NoApplications))
    else FooterView(about, Some(Applications(seq(|blogs|, i requires 0 <= i < |blogs| => PostLink(blogs[i], locale)))))
  }

  /** Every post link is the post's page in the route locale: bare for English, prefixed otherwise. */
  lemma PostLinksFollowLocale(blogs: seq<FooterPost>, routeLocale: Option<string>, pathname: string, i: nat)
    requires !IsBlogDetailPage(pathname) && i < |blogs|
    ensures var links := Render(blogs, routeLocale, pathname).others.value.links;
      && (RouteLocale(routeLocale) == "en" ==> links[i].href == "/apps/" + blogs[i].slug + ".html")
      && (RouteLocale(routeLocale) != "en" ==> links[i].href == "/" + RouteLocale(routeLocale) + "/apps/" + blogs[i].slug + ".html")
  {
  }

  /** A per-locale title with nothing usable stored reads "Untitled". */
  lemma EmptyTitleIsUntitled(m: LocalizedText, locale: string)
    requires forall i :: 0 <= i < |m| ==> m[i].1 == ""
    ensures PostTitle(PerLocale(m), locale) == "Untitled"
  {
    LookupInValues(m, locale);
    LookupInValues(m, "en");
    if |m| > 0 {
      assert Values(m)[0] == m[0].1;
    }
  }
}
