/**
 * Page SEO helpers (`src/lib/seo.ts`): the read-through lookup of a page's
 * SEO record through the shared cache, and the choice of which JSON-LD
 * object to serialise for a locale. The store's answer and `JSON.stringify`
 * are arguments.
 */
module Seo {
  import opened Wrappers
  import opened JsValues
  import Cache
  import ClientLanguages

  function SeoKey(pageKey: string): (r: string)
    ensures |r| == |pageKey| + 9 && r[..9] == "page-seo-"
  {
    "page-seo-" + pageKey
  }

  /** The shared cache's two users can never overwrite each other's entries. */
  lemma SeoKeyIsNotLanguagesKey(pageKey: string)
    ensures SeoKey(pageKey) != ClientLanguages.LanguagesKey
  {
    assert SeoKey(pageKey)[0] == 'p';
    assert ClientLanguages.LanguagesKey[0] == 'a';
  }

  /** The cached record `getPageSEO` would return at `now`, when it is truthy. */
  function CachedPageSeo(entries: map<string, Cache.Entry<Value>>, pageKey: string, now: int): Option<Value> {
    match Cache.Read(entries, SeoKey(pageKey), now, Cache.DefaultDuration)
    case Some(v) => if Truthy(v) then Some(v) else None
    case None => None
  }

  /** What `getPageSEO` returns: a truthy cached record, else the stored record (`null` if missing, falsy or on error). */
  function PageSeo(entries: map<string, Cache.Entry<Value>>, pageKey: string, now: int,
                   store: Result<Option<Value>, string>): Option<Value> {
    match CachedPageSeo(entries, pageKey, now)
    case Some(v) => Some(v)
    case None =>
      match store
      case Ok(Some(doc)) => if Truthy(doc) then Some(doc) else None
      case _ => None
  }

  /** The cache after `getPageSEO`: only a record found in the store is written. */
  function PageSeoEntries(entries: map<string, Cache.Entry<Value>>, pageKey: string, now: int,
                          store: Result<Option<Value>, string>): map<string, Cache.Entry<Value>> {
    match CachedPageSeo(entries, pageKey, now)
    case Some(_) => entries
    case None =>
      match store
      case Ok(Some(doc)) => if Truthy(doc) then entries[SeoKey(pageKey) := Cache.Entry(now, doc)] else entries
      case _ => entries
  }

  /** `getPageSEO`. */
  method GetPageSeo(cache: Cache.TtlCache<Value>, pageKey: string, now: int, store: Result<Option<Value>, string>)
    returns (r: Option<Value>)
    modifies cache
    ensures r == PageSeo(old(cache.entries), pageKey, now, store)
    ensures cache.entries == PageSeoEntries(old(cache.entries), pageKey, now, store)
  {
    var key := SeoKey(pageKey);
    var cached := cache.Get(key, now, Cache.DefaultDuration);
    if cached.Some? && Truthy(cached.value) {
      return cached;
    }
    match store {
      case Ok(Some(doc)) =>
        if Truthy(doc) {
          cache.Set(key, doc, now);
          r := Some(doc);
        } else {
          r := None;
        }
      case _ =>
        r := None;
    }
  }

  /** A read-through never disturbs the cached language list. */
  lemma PageSeoKeepsLanguages(entries: map<string, Cache.Entry<Value>>, pageKey: string, now: int,
                              store: Result<Option<Value>, string>)
    requires ClientLanguages.CacheWellFormed(entries)
    ensures ClientLanguages.CacheWellFormed(PageSeoEntries(entries, pageKey, now, store))
  {
    SeoKeyIsNotLanguagesKey(pageKey);
  }

  /** A missing page, a falsy record or a store error returns `null` on a miss and writes nothing. */
  lemma PageSeoMissWritesNothing(entries: map<string, Cache.Entry<Value>>, pageKey: string, now: int,
                                 store: Result<Option<Value>, string>)
    requires CachedPageSeo(entries, pageKey, now).None?
    requires !(store.Ok? && store.value.Some? && Truthy(store.value.value))
    ensures PageSeo(entries, pageKey, now, store) == None
    ensures PageSeoEntries(entries, pageKey, now, store) == entries
  {
  }

  /** A record found in the store is returned and cached, so any read in the next ten minutes returns it. */
  lemma PageSeoFoundIsCached(entries: map<string, Cache.Entry<Value>>, pageKey: string, now: int, doc: Value,
                             later: int, store2: Result<Option<Value>, string>)
    requires CachedPageSeo(entries, pageKey, now).None? && Truthy(doc)
    requires later - now <= Cache.DefaultDuration
    ensures PageSeo(entries, pageKey, now, Ok(Some(doc))) == Some(doc)
    ensures PageSeo(PageSeoEntries(entries, pageKey, now, Ok(Some(doc))), pageKey, later, store2) == Some(doc)
  {
  }

  /** Which value `generateJsonLdScript` serialises, if any. */
  datatype JsonLdChoice = NoScript | Serialize(v: Value)

  /**
   * A falsy input gives no script; a plain object serialises its entry for the
   * locale, else its 'en' entry, else itself; arrays and primitives serialise whole.
   */
  function SelectJsonLd(jsonLd: Value, locale: string): (r: JsonLdChoice)
    ensures r.NoScript? <==> !Truthy(jsonLd)
    ensures r.Serialize? ==> Truthy(r.v)
    ensures r.Serialize? ==> r.v == jsonLd || r.v == Get(jsonLd, locale) || r.v == Get(jsonLd, "en")
    ensures jsonLd.Object? && Truthy(Get(jsonLd, locale)) ==> r == Serialize(Get(jsonLd, locale))
    ensures jsonLd.Object? && !Truthy(Get(jsonLd, locale)) && Truthy(Get(jsonLd, "en")) ==> r == Serialize(Get(jsonLd, "en"))
    ensures !jsonLd.Object? && Truthy(jsonLd) ==> r == Serialize(jsonLd)
  {
    if !Truthy(jsonLd) then NoScript
    else if jsonLd.Object? then
      if Truthy(Get(jsonLd, locale)) then Serialize(Get(jsonLd, locale))
      else if Truthy(Get(jsonLd, "en")) then Serialize(Get(jsonLd, "en"))
      else Serialize(jsonLd)
    else Serialize(jsonLd)
  }

  /** `generateJsonLdScript(jsonLd, locale)`, with `JSON.stringify` as `stringify`. */
  function GenerateJsonLdScript(jsonLd: Value, locale: string, stringify: Value -> string): (r: string)
    ensures !Truthy(jsonLd) ==> r == ""
    ensures Truthy(jsonLd) ==> r == stringify(SelectJsonLd(jsonLd, locale).v)
  {
    match SelectJsonLd(jsonLd, locale)
    case NoScript => ""
    case Serialize(v) => stringify(v)
  }

  /** An object with neither the locale nor 'en' set is serialised whole. */
  lemma JsonLdWholeObject(fields: Records.Record<Value>, locale: string)
    requires !Truthy(Get(Object(fields), locale)) && !Truthy(Get(Object(fields), "en"))
    ensures SelectJsonLd(Object(fields), locale) == Serialize(Object(fields))
  {
  }
}
