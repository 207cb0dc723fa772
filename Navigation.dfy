/**
 * The navigation bar (`src/components/Navigation.tsx`): the language
 * switcher strips the current locale segment from the path and prefixes
 * the new one; English paths carry no prefix.
 */
module Navigation {
  import opened Wrappers
  import opened JsStrings
  import opened Locales
  import opened LocalePaths

  /**
   * The prefix strip: the first code `L` for which the path starts with "/L/"
   * loses that "/L"; a path equal to "/L" becomes "/"; otherwise unchanged.
   */
  function StripLocale(path: string, codes: seq<string>): (r: string)
    ensures (forall i :: 0 <= i < |codes| ==>
      !StartsWith(path, "/" + codes[i] + "/") && path != "/" + codes[i]) ==> r == path
  {
    if |codes| == 0 then path
    else if StartsWith(path, "/" + codes[0] + "/") then ReplaceFirst(path, "/" + codes[0], "")
    else if path == "/" + codes[0] then "/"
    else
      var r := StripLocale(path, codes[1..]);
      assert forall i :: 1 <= i < |codes| ==> codes[i] == codes[1..][i - 1];
      r
  }

  /** Replacing a prefix that opens the string removes exactly that prefix. */
  lemma ReplaceOpeningPrefix(s: string, p: string)
    requires StartsWith(s, p)
    ensures ReplaceFirst(s, p, "") == s[|p|..]
  {
    assert IndexOf(s, p) == Some(0);
  }

  /** The path after a switch to `newLocale`, from the stripped path. */
  function SwitchedPath(stripped: string, newLocale: string): string {
    if newLocale == "en" then (if stripped == "/" then "/" else stripped)
    else "/" + newLocale + (if stripped == "/" then "" else stripped)
  }

  /** The strip loop of `handleLanguageChange`, with its `break`s, and the no-op check after it. */
  method StripLocalePrefix(currentPath: string, codes: seq<string>) returns (pathWithoutLocale: string)
    ensures pathWithoutLocale == StripLocale(currentPath, codes)
  {
    pathWithoutLocale := currentPath;
    var i := 0;
    while i < |codes|
      invariant 0 <= i <= |codes|
      invariant pathWithoutLocale == currentPath
      invariant StripLocale(currentPath, codes) == StripLocale(currentPath, codes[i..])
    {
      if StartsWith(currentPath, "/" + codes[i] + "/") {
        pathWithoutLocale := ReplaceFirst(currentPath, "/" + codes[i], "");
        break;
      } else if currentPath == "/" + codes[i] {
        pathWithoutLocale := "/";
        break;
      }
      assert codes[i..][1..] == codes[i + 1..];
      i := i + 1;
    }
    if pathWithoutLocale == currentPath && currentPath != "/" {
      pathWithoutLocale := currentPath;
    }
  }

  /** `handleLanguageChange(newLocale)`: the address the browser is sent to. */
  method HandleLanguageChange(pathname: string, activeLanguages: seq<LocaleInfo>, newLocale: string)
    returns (newPath: string)
    ensures newPath == SwitchedPath(StripLocale(pathname, Codes(activeLanguages)), newLocale)
  {
    var supportedLocaleCodes := Codes(activeLanguages);
    var pathWithoutLocale := StripLocalePrefix(pathname, supportedLocaleCodes);
    if newLocale == "en" {
      newPath := if pathWithoutLocale == "/" then "/" else pathWithoutLocale;
    } else {
      newPath := "/" + newLocale + (if pathWithoutLocale == "/" then "" else pathWithoutLocale);
    }
  }

  predicate WellFormedCode(code: string) {
    code != "" && '/' !in code
  }

  /** A segment "/L/" that opens "/" + n + rest, with `rest` empty or starting with '/', names `n` itself. */
  lemma SegmentNamesCode(n: string, rest: string, l: string)
    requires WellFormedCode(n) && WellFormedCode(l)
    requires rest == "" || rest[0] == '/'
    requires StartsWith("/" + n + rest, "/" + l + "/")
    ensures l == n
  {
    var p := "/" + n + rest;
    var q := "/" + l + "/";
    assert p[..|q|] == q;
    assert forall k :: 1 <= k <= |n| ==> p[k] == n[k - 1];
    assert forall k :: 1 <= k <= |l| ==> q[k] == l[k - 1];
    assert p[|l| + 1] == '/';
    assert |p| > |n| + 1 ==> p[|n| + 1] == '/';
    assert |l| == |n|;
    assert p[1..|n| + 1] == n && q[1..|l| + 1] == l;
  }

  /** A path "/" + n + rest that equals "/L" names `n` itself, with nothing after it. */
  lemma WholePathNamesCode(n: string, rest: string, l: string)
    requires WellFormedCode(l)
    requires rest == "" || rest[0] == '/'
    requires "/" + n + rest == "/" + l
    ensures l == n && rest == ""
  {
    var p := "/" + n + rest;
    assert p[1..] == n + rest == l;
  }

  /** A path opened by `"/" + n` followed by '/' or nothing carries no other well-formed code's segment. */
  lemma OnlyOwnSegment(n: string, rest: string, l: string)
    requires WellFormedCode(n) && WellFormedCode(l) && l != n
    requires rest == "" || rest[0] == '/'
    ensures !StartsWith("/" + n + rest, "/" + l + "/")
    ensures "/" + n + rest != "/" + l
  {
    if StartsWith("/" + n + rest, "/" + l + "/") {
      SegmentNamesCode(n, rest, l);
    }
    if "/" + n + rest == "/" + l {
      WholePathNamesCode(n, rest, l);
    }
  }

  /** The first occurrence of `n` in a list is the first code whose segment opens "/" + n + rest. */
  lemma {:induction false} StripOwnSegment(n: string, rest: string, codes: seq<string>)
    requires WellFormedCode(n) && n in codes
    requires forall i :: 0 <= i < |codes| ==> WellFormedCode(codes[i])
    requires rest == "" || rest[0] == '/'
    ensures StripLocale("/" + n + rest, codes) == (if rest == "" then "/" else rest)
  {
    var p := "/" + n + rest;
    if codes[0] == n {
      if rest == "" {
        assert p == "/" + n;
        assert !StartsWith(p, "/" + n + "/");
      } else {
        assert p[..|n| + 2] == "/" + n + "/";
        ReplaceOpeningPrefix(p, "/" + n);
        assert p[|n| + 1..] == rest;
      }
    } else {
      OnlyOwnSegment(n, rest, codes[0]);
      assert n in codes[1..];
      StripOwnSegment(n, rest, codes[1..]);
    }
  }

  /**
   * Switching to a listed locale other than English and stripping again gives
   * back the stripped path: the switcher's prefix and its strip are inverse.
   */
  lemma SwitchThenStrip(stripped: string, n: string, codes: seq<string>)
    requires n != "en" && WellFormedCode(n) && n in codes
    requires forall i :: 0 <= i < |codes| ==> WellFormedCode(codes[i])
    requires |stripped| > 0 && stripped[0] == '/'
    ensures StripLocale(SwitchedPath(stripped, n), codes) == stripped
  {
    StripOwnSegment(n, if stripped == "/" then "" else stripped, codes);
  }

  /** The stripped path of a site path still starts with '/'. */
  lemma {:induction false} StripKeepsLeadingSlash(path: string, codes: seq<string>)
    requires |path| > 0 && path[0] == '/'
    ensures |StripLocale(path, codes)| > 0 && StripLocale(path, codes)[0] == '/'
  {
    if |codes| > 0 {
      var p := "/" + codes[0];
      if StartsWith(path, p + "/") {
        assert StartsWith(path, p);
        ReplaceOpeningPrefix(path, p);
        assert path[|p|] == (p + "/")[|p|];
      } else if path != p {
        StripKeepsLeadingSlash(path, codes[1..]);
      }
    }
  }

  /** English: from '/fr' back to '/'; any locale from '/' to its bare prefix. */
  lemma SwitchExamples()
    ensures StripLocale("/fr", ["en", "fr"]) == "/"
    ensures SwitchedPath(StripLocale("/fr", ["en", "fr"]), "en") == "/"
    ensures SwitchedPath("/", "es") == "/es"
    ensures SwitchedPath("/apps/x.html", "en") == "/apps/x.html"
  {
    assert !StartsWith("/fr", "/en/");
    assert !StartsWith("/fr", "/fr/");
  }

  /** The navigation links use the shared helper with the route locale, so English links are bare. */
  lemma NavigationLinks(param: Option<string>)
    ensures LocalizedPath(RouteLocale(param), "/apps/") ==
      (if param.Some? && param.value != "" && param.value != "en" then "/" + param.value + "/apps/" else "/apps/")
  {
  }
}
