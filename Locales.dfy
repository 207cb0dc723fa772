/**
 * The `{ locale, name, flag }` records that the server helper
 * (`LocaleInfo`) and the client helper (`Locale`) hand to the pages, and
 * the four-language list both fall back to when loading fails.
 */
module Locales {
  datatype LocaleInfo = LocaleInfo(locale: string, name: string, flag: string)

  /** English, French, Spanish and Italian, with their flag emoji. */
  const FallbackLocales: seq<LocaleInfo> := [
    LocaleInfo("en", "English", "\U{1F1FA}\U{1F1F8}"),
    LocaleInfo("fr", "Fran\U{00E7}ais", "\U{1F1EB}\U{1F1F7}"),
    LocaleInfo("es", "Espa\U{00F1}ol", "\U{1F1EA}\U{1F1F8}"),
    LocaleInfo("it", "Italiano", "\U{1F1EE}\U{1F1F9}")
  ]

  /** `languages.map(lang => lang.locale)`: one code per record, in order. */
  function Codes(ls: seq<LocaleInfo>): (r: seq<string>)
    ensures |r| == |ls|
    ensures forall i :: 0 <= i < |ls| ==> r[i] == ls[i].locale
  {
    if |ls| == 0 then [] else [ls[0].locale] + Codes(ls[1..])
  }

  lemma FallbackCodes()
    ensures Codes(FallbackLocales) == ["en", "fr", "es", "it"]
  {
  }
}
