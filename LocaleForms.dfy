/**
 * Per-locale form fields shared by the admin forms: a field is a
 * `Record<string, string>` from locale code to text. Loading the active
 * languages gives each field one '' entry per locale, and editing one locale
 * writes that key and nothing else.
 */
module LocaleForms {
  import opened Wrappers
  import opened Records

  /** The languages used when loading them fails: English, French, Spanish and Italian. */
  const FallbackFormLocales: seq<string> := ["en", "fr", "es", "it"]

  /** `Object.fromEntries(languages.map(locale => [locale, '']))`. */
  function EmptyLocaleMap(locales: seq<string>): Record<string> {
    FromKeys(locales, "")
  }

  /**
   * After loading, a field holds exactly the loaded locales, each once and
   * each mapped to ''.
   */
  lemma EmptyLocaleMapSpec(locales: seq<string>)
    ensures DistinctKeys(EmptyLocaleMap(locales))
    ensures forall k :: k in Keys(EmptyLocaleMap(locales)) <==> k in locales
    ensures forall k :: k in locales ==> Lookup(EmptyLocaleMap(locales), k) == Some("")
    ensures forall k :: k !in locales ==> Lookup(EmptyLocaleMap(locales), k) == None
  {
    FromKeysIntoSpec([], locales, "");
  }

  /** `{ ...m, [locale]: value }`. */
  function SetLocale(m: Record<string>, locale: string, value: string): (r: Record<string>)
    ensures forall k :: Lookup(r, k) == if k == locale then Some(value) else Lookup(m, k)
  {
    forall k ensures Lookup(Put(m, locale, value), k) == if k == locale then Some(value) else Lookup(m, k) {
      LookupPut(m, locale, value, k);
    }
    Put(m, locale, value)
  }

  /** Writing a locale twice keeps the last text, and writing back what is stored changes nothing. */
  lemma SetLocaleLastWins(m: Record<string>, locale: string, a: string, b: string)
    ensures SetLocale(SetLocale(m, locale, a), locale, b) == SetLocale(m, locale, b)
    ensures Lookup(m, locale).Some? ==> SetLocale(m, locale, Lookup(m, locale).value) == m
  {
    PutPut(m, locale, a, b);
    if Lookup(m, locale).Some? {
      PutLookup(m, locale);
    }
  }
}
