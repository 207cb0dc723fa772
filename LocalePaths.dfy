/**
 * Locale-aware link helpers shared by the navigation bar, the footer, the
 * post cards and the JSON-LD builder: English URLs carry no locale segment,
 * every other locale is prefixed with "/" + locale.
 */
module LocalePaths {
  import opened Wrappers

  /** `params.locale || 'en'`: a missing or empty route parameter means English. */
  function RouteLocale(param: Option<string>): (r: string)
    ensures r != ""
    ensures param.Some? && param.value != "" ==> r == param.value
    ensures param.None? || param.value == "" ==> r == "en"
  {
    if param.Some? && param.value != "" then param.value else "en"
  }

  /** The URL prefix for a locale: '' for English, "/" + locale otherwise. */
  function LocalePrefix(locale: string): string {
    if locale == "en" then "" else "/" + locale
  }

  /** `getLocalizedPath(path)`. */
  function LocalizedPath(locale: string, path: string): string {
    if locale == "en" then path else "/" + locale + path
  }

  /** `/apps/${slug}.html`, the public URL path of a post. */
  function PostPath(slug: string): string {
    "/apps/" + slug + ".html"
  }

  /** The link helper and the JSON-LD prefix agree, and only English leaves a path as it is. */
  lemma LocalizedPathPrefix(locale: string, path: string)
    ensures LocalizedPath(locale, path) == LocalePrefix(locale) + path
    ensures LocalizedPath(locale, path) == path <==> locale == "en"
  {
    if locale != "en" {
      assert |LocalizedPath(locale, path)| > |path|;
    }
  }
}
