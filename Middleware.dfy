/**
 * The request middleware (`src/middleware.ts`): static and back-office
 * paths pass through, an English-prefixed path redirects to its
 * unprefixed form, another locale's path passes through, and any other
 * path is rewritten internally under '/en'.
 */
module Middleware {
  import opened Wrappers
  import opened JsStrings

  const Locales: seq<string> := ["en", "fr", "es", "it", "tr"]
  const DefaultLocale: string := "en"
  const StaticExtensions: seq<string> :=
    ["webp", "jpg", "jpeg", "png", "gif", "svg", "ico", "css", "js", "woff", "woff2", "ttf", "eot"]

  datatype Decision = Next | Redirect(to: string) | Rewrite(to: string)

  /** `/\.(webp|jpg|...|eot)$/.test(pathname)`. */
  predicate HasStaticExtension(pathname: string) {
    exists i :: 0 <= i < |StaticExtensions| && EndsWith(pathname, "." + StaticExtensions[i])
  }

  /** The paths the middleware leaves alone. */
  predicate Skipped(pathname: string) {
    StartsWith(pathname, "/admin") || StartsWith(pathname, "/api") || StartsWith(pathname, "/_next")
    || Includes(pathname, "/favicon.ico") || HasStaticExtension(pathname)
  }

  predicate HasLocaleSegment(pathname: string, locale: string) {
    StartsWith(pathname, "/" + locale + "/") || pathname == "/" + locale
  }

  /** `locales.find(...)`: the first locale whose segment opens the path. */
  function LocaleInPath(pathname: string, locales: seq<string>): (r: Option<string>)
    ensures r.None? <==> forall i :: 0 <= i < |locales| ==> !HasLocaleSegment(pathname, locales[i])
    ensures r.Some? ==> exists i :: (0 <= i < |locales| && locales[i] == r.value && HasLocaleSegment(pathname, r.value)
      && forall j :: 0 <= j < i ==> !HasLocaleSegment(pathname, locales[j]))
  {
    if |locales| == 0 then None
    else if HasLocaleSegment(pathname, locales[0]) then Some(locales[0])
    else
      var r := LocaleInPath(pathname, locales[1..]);
      assert forall j :: 1 <= j < |locales| ==> locales[j] == locales[1..][j - 1];
      r
  }

  /** `middleware(request)` as a function of the request path. */
  function Decide(pathname: string): (r: Decision)
    ensures Skipped(pathname) ==> r == Next
    ensures r.Redirect? <==> !Skipped(pathname) && HasLocaleSegment(pathname, DefaultLocale)
    ensures r.Redirect? ==> pathname == "/" + DefaultLocale + r.to || (pathname == "/" + DefaultLocale && r.to == "/")
    ensures r.Rewrite? <==> !Skipped(pathname) && forall i :: 0 <= i < |Locales| ==> !HasLocaleSegment(pathname, Locales[i])
    ensures r.Rewrite? ==> r.to == "/" + DefaultLocale + pathname
  {
    if Skipped(pathname) then Next
    else match LocaleInPath(pathname, Locales)
      case Some(l) =>
        if l == DefaultLocale then Redirect(if |pathname| > 3 then pathname[3..] else "/")
        else Next
      case None => Rewrite("/" + DefaultLocale + pathname)
  }

  /** Back-office, framework and static paths pass through untouched. */
  lemma SkippedPassThrough(pathname: string)
    requires Skipped(pathname)
    ensures Decide(pathname) == Next
  {
  }

  /** An English-prefixed path loses its first three characters, and '/en' becomes '/'. */
  lemma EnglishPrefixRedirects(pathname: string)
    requires !Skipped(pathname) && HasLocaleSegment(pathname, "en")
    ensures Decide(pathname) == Redirect(if |pathname| > 3 then pathname[3..] else "/")
    ensures Decide(pathname).to == "/" || Decide(pathname).to[0] == '/'
  {
    assert LocaleInPath(pathname, Locales) == Some("en");
  }

  /** A path opened by another locale's segment passes through. */
  lemma OtherLocaleContinues(pathname: string, i: nat)
    requires !Skipped(pathname) && 1 <= i < |Locales| && HasLocaleSegment(pathname, Locales[i])
    ensures Decide(pathname) == Next
  {
    assert pathname[2] == Locales[i][1] != 'n';
    assert !HasLocaleSegment(pathname, "en");
    var r := LocaleInPath(pathname, Locales);
    assert r.Some?;
  }

  /** Every other path is served from the English tree without a visible redirect. */
  lemma UnprefixedRewrites(pathname: string)
    requires !Skipped(pathname)
    requires forall i :: 0 <= i < |Locales| ==> !HasLocaleSegment(pathname, Locales[i])
    ensures Decide(pathname) == Rewrite("/en" + pathname)
  {
  }

  /** The redirect undoes the rewrite: the internal '/en' form of a path redirects back to it. */
  lemma RewriteTargetRedirectsBack(pathname: string)
    requires |pathname| > 0 && pathname[0] == '/' && !Skipped("/en" + pathname)
    ensures Decide("/en" + pathname) == Redirect(pathname)
  {
    var p := "/en" + pathname;
    assert p[..4] == "/en/";
    assert HasLocaleSegment(p, "en");
    assert p[3..] == pathname;
  }

  /** No static extension ends in any of the other characters. */
  lemma NotStaticByLastChar(pathname: string)
    requires |pathname| > 0
    requires pathname[|pathname| - 1] !in {'p', 'g', 'f', 'o', 's', '2', 't'}
    ensures !HasStaticExtension(pathname)
  {
  }

  /** Every character of an included string occurs in the string that includes it. */
  lemma IncludedChar(s: string, p: string, k: nat)
    requires Includes(s, p) && k < |p|
    ensures p[k] in s
  {
    var i := IndexOf(s, p).value;
    assert s[i..i + |p|][k] == s[i + k];
  }

  /** A path that lacks one of the characters of '/favicon.ico' cannot contain it. */
  lemma NoFavicon(pathname: string)
    requires 'v' !in pathname
    ensures !Includes(pathname, "/favicon.ico")
  {
    if Includes(pathname, "/favicon.ico") {
      IncludedChar(pathname, "/favicon.ico", 3);
    }
  }

  /** A locale segment is recognised by the character after the leading '/'. */
  lemma NoSegmentBySecondChar(pathname: string, locale: string)
    requires |pathname| >= 2 && |locale| >= 1 && pathname[1] != locale[0]
    ensures !HasLocaleSegment(pathname, locale)
  {
  }

  lemma DiffersAt(s: string, prefix: string, k: nat)
    requires k < |prefix| && k < |s| && s[k] != prefix[k]
    ensures !StartsWith(s, prefix)
  {
  }

  /** A path is not skipped once it differs from each back-office prefix and has no static suffix or favicon. */
  lemma NotSkipped(pathname: string, kAdmin: nat, kApi: nat, kNext: nat)
    requires kAdmin < 6 && kAdmin < |pathname| && pathname[kAdmin] != "/admin"[kAdmin]
    requires kApi < 4 && kApi < |pathname| && pathname[kApi] != "/api"[kApi]
    requires kNext < 6 && kNext < |pathname| && pathname[kNext] != "/_next"[kNext]
    requires 'v' !in pathname && |pathname| > 0
    requires pathname[|pathname| - 1] !in {'p', 'g', 'f', 'o', 's', '2', 't'}
    ensures !Skipped(pathname)
  {
    DiffersAt(pathname, "/admin", kAdmin);
    DiffersAt(pathname, "/api", kApi);
    DiffersAt(pathname, "/_next", kNext);
    NoFavicon(pathname);
    NotStaticByLastChar(pathname);
  }
}

/** Worked examples of the middleware decision. */
module MiddlewareExamples {
  import opened JsStrings
  import opened Middleware

  lemma ExampleEnglishRoot()
    ensures Decide("/en") == Redirect("/")
  {
    assert !Skipped("/en") by { NotSkipped("/en", 1, 1, 1); }
    assert HasLocaleSegment("/en", "en");
  }

  lemma ExampleEnglishPost(p: string)
    requires p == "/en/apps/x.html"
    ensures Decide(p) == Redirect("/apps/x.html")
  {
    var rest := "/apps/x.html";
    assert p == "/en" + rest;
    NotSkipped(p, 1, 1, 1);
    RewriteTargetRedirectsBack(rest);
  }

  lemma ExampleFrench()
    ensures Decide("/fr/apps/") == Next
  {
    var p := "/fr/apps/";
    var segment := "/" + Locales[1] + "/";
    assert p == segment + "apps/";
    assert p[..|segment|] == segment;
    NotSkipped(p, 1, 1, 1);
    OtherLocaleContinues(p, 1);
  }

  lemma ExampleUnprefixed()
    ensures Decide("/apps/") == Rewrite("/en" + "/apps/")
  {
    var p := "/apps/";
    assert !Skipped(p) by { NotSkipped(p, 2, 3, 1); }
    forall i | 0 <= i < |Locales|
      ensures !HasLocaleSegment(p, Locales[i])
    {
      assert Locales[i][0] != 'a';
      NoSegmentBySecondChar(p, Locales[i]);
    }
    UnprefixedRewrites(p);
  }

  lemma ExampleAdmin()
    ensures Decide("/admin/posts") == Next
  {
    assert ("/admin/posts")[..6] == "/admin";
  }
}
