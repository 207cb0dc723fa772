/**
 * Locale fallback: how every reader of a per-locale text field projects it
 * to one string. Almost all readers write `m[locale] || m['en'] || ''`;
 * because of `||`, a missing key and an empty string are both skipped.
 * The footer and the FAQ admin list add a tier for the first stored value.
 */
module Localize {
  import opened Wrappers
  import opened Records

  /** A `Record<string, string>` keyed by locale code. */
  type LocalizedText = Record<string>

  /** A field typed `string | Record<string, string>`: already projected, or per locale. */
  datatype Text = Plain(s: string) | PerLocale(m: LocalizedText)

  /** `m[k]` read as a string operand of `||`: a missing key reads as the falsy ''. */
  function At(m: LocalizedText, k: string): string {
    Lookup(m, k).GetOr("")
  }

  /** `m[locale] || m['en'] || ''`. */
  function Resolve(m: LocalizedText, locale: string): (r: string)
    ensures At(m, locale) != "" ==> r == At(m, locale)
    ensures At(m, locale) == "" ==> r == At(m, "en")
  {
    if At(m, locale) != "" then At(m, locale) else At(m, "en")
  }

  /** `typeof t === 'string' ? t : (t[locale] || t['en'] || '')`. */
  function TextIn(t: Text, locale: string): (r: string)
    ensures t.Plain? ==> r == t.s
    ensures t.PerLocale? ==> r == Resolve(t.m, locale)
  {
    match t
    case Plain(s) => s
    case PerLocale(m) => Resolve(m, locale)
  }

  /** `Object.values(m)[0]`, read as a string operand of `||`. */
  function FirstValue(m: LocalizedText): (r: string)
    ensures |m| > 0 ==> r == m[0].1
    ensures |m| == 0 ==> r == ""
  {
    if |m| == 0 then "" else m[0].1
  }

  /** `m[locale] || m['en'] || Object.values(m)[0] || last` (the footer's four tiers). */
  function ResolveOrFirst(m: LocalizedText, locale: string, last: string): (r: string)
    ensures Resolve(m, locale) != "" ==> r == Resolve(m, locale)
    ensures Resolve(m, locale) == "" && FirstValue(m) != "" ==> r == FirstValue(m)
    ensures Resolve(m, locale) == "" && FirstValue(m) == "" ==> r == last
  {
    if Resolve(m, locale) != "" then Resolve(m, locale)
    else if FirstValue(m) != "" then FirstValue(m)
    else last
  }

  /** `m['en'] || Object.values(m)[0] || last` (the FAQ admin list's three tiers). */
  function EnglishOrFirst(m: LocalizedText, last: string): (r: string)
    ensures At(m, "en") != "" ==> r == At(m, "en")
    ensures At(m, "en") == "" && FirstValue(m) != "" ==> r == FirstValue(m)
    ensures At(m, "en") == "" && FirstValue(m) == "" ==> r == last
  {
    if At(m, "en") != "" then At(m, "en")
    else if FirstValue(m) != "" then FirstValue(m)
    else last
  }

  lemma {:induction false} LookupInValues(m: LocalizedText, k: string)
    ensures Lookup(m, k).Some? ==> Lookup(m, k).value in Values(m)
  {
    if |m| > 0 && m[0].0 != k {
      LookupInValues(m[1..], k);
      assert Values(m) == [m[0].1] + Values(m[1..]);
    }
  }

  /**
   * The resolved text is never invented: it is one of the values stored in the
   * record, or '' exactly when neither the locale nor 'en' holds a non-empty value.
   */
  lemma ResolveIsStoredValue(m: LocalizedText, locale: string)
    ensures Resolve(m, locale) == "" || Resolve(m, locale) in Values(m)
    ensures Resolve(m, locale) == "" <==> At(m, locale) == "" && At(m, "en") == ""
  {
    LookupInValues(m, locale);
    LookupInValues(m, "en");
  }

  /** Reading the requested locale first: a non-empty translation is returned unchanged. */
  lemma ResolveKnownLocale(m: LocalizedText, locale: string, i: nat)
    requires DistinctKeys(m) && i < |m| && m[i].0 == locale && m[i].1 != ""
    ensures Resolve(m, locale) == m[i].1
  {
    LookupAt(m, i);
  }

  /**
   * An empty translation counts as missing: when the requested locale is stored
   * as '' the English text is used, exactly as when the locale is absent.
   */
  lemma EmptyTranslationFallsBack(m: LocalizedText, locale: string, i: nat)
    requires DistinctKeys(m) && i < |m| && m[i].0 == locale && m[i].1 == ""
    ensures Resolve(m, locale) == At(m, "en")
  {
    LookupAt(m, i);
  }

  /**
   * The two-tier readers have no "any stored value" tier: with neither the locale
   * nor 'en' present they give '', while the footer's reader gives the first value.
   */
  lemma OnlyOtherLocaleStored()
    ensures Resolve([("es", "Hola")], "tr") == ""
    ensures ResolveOrFirst([("es", "Hola")], "tr", "Untitled") == "Hola"
    ensures Resolve([("en", "Hello"), ("fr", "Bonjour")], "fr") == "Bonjour"
    ensures Resolve([("en", "Hello")], "tr") == "Hello"
  {
  }
}
