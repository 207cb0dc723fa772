/**
 * Request locale resolution (`src/i18n.ts`): the locale list and default
 * come from the active language records (or a fixed list when the store
 * fails); the requested code must be listed; its message file is loaded,
 * else the default's, else an empty catalogue. Message files present on
 * disk are the `files` map.
 */
module I18n {
  import opened Wrappers
  import opened JsValues
  import LanguageModel

  const FallbackLocales: seq<string> := ["en", "fr", "es", "it", "tr"]
  const FallbackDefault: string := "en"

  datatype LocaleConfig = LocaleConfig(locales: seq<string>, defaultLocale: string)

  /** `getRequestConfig`'s outcome: `notFound()`, or the locale and messages handed to the page. */
  datatype RequestConfig = NotFound | Config(locale: string, messages: Value)

  function ActiveCodes(active: seq<LanguageModel.LanguageDoc>): (r: seq<string>)
    ensures |r| == |active|
    ensures forall i :: 0 <= i < |active| ==> r[i] == active[i].code
  {
    if |active| == 0 then [] else [active[0].code] + ActiveCodes(active[1..])
  }

  /** `activeLanguages.find(lang => lang.isDefault)?.code || 'en'`. */
  function DefaultCode(active: seq<LanguageModel.LanguageDoc>): (r: string)
    ensures r != ""
    ensures (forall i :: 0 <= i < |active| ==> !active[i].isDefault) ==> r == FallbackDefault
    ensures forall i :: (0 <= i < |active| && active[i].isDefault
      && (forall j :: 0 <= j < i ==> !active[j].isDefault)) ==>
      r == if active[i].code != "" then active[i].code else FallbackDefault
  {
    if |active| == 0 then FallbackDefault
    else if active[0].isDefault then (if active[0].code != "" then active[0].code else FallbackDefault)
    else
      var r := DefaultCode(active[1..]);
      assert forall i :: 1 <= i < |active| ==> active[i] == active[1..][i - 1];
      r
  }

  /** `getLocales`, given the active records the store returns or its failure. */
  function GetLocales(store: Result<seq<LanguageModel.LanguageDoc>, string>): (r: LocaleConfig)
    ensures store.Err? ==> r == LocaleConfig(FallbackLocales, FallbackDefault)
    ensures store.Ok? ==> r.locales == ActiveCodes(store.value) && r.defaultLocale == DefaultCode(store.value)
  {
    match store
    case Ok(active) => LocaleConfig(ActiveCodes(active), DefaultCode(active))
    case Err(_) => LocaleConfig(FallbackLocales, FallbackDefault)
  }

  /** `locale ?? defaultLocale`: only a missing locale falls back; '' is kept. */
  function RequestedCode(requested: Option<string>, cfg: LocaleConfig): string {
    match requested
    case Some(code) => code
    case None => cfg.defaultLocale
  }

  /** The request configuration, with the message files that exist given as `files`. */
  function RequestConfigFor(requested: Option<string>, cfg: LocaleConfig, files: map<string, Value>): (r: RequestConfig)
    ensures r.NotFound? <==> RequestedCode(requested, cfg) !in cfg.locales
    ensures r.Config? ==> r.locale == RequestedCode(requested, cfg) || r.locale == cfg.defaultLocale
  {
    var code := RequestedCode(requested, cfg);
    if code !in cfg.locales then NotFound
    else if code in files then Config(code, files[code])
    else if cfg.defaultLocale in files then Config(cfg.defaultLocale, files[cfg.defaultLocale])
    else Config(code, Object([]))
  }

  /**
   * The message fallback order: the code's own file; else the default's file,
   * reported under the default locale; else an empty catalogue under the code.
   */
  lemma MessageFallbackOrder(requested: Option<string>, cfg: LocaleConfig, files: map<string, Value>)
    requires RequestedCode(requested, cfg) in cfg.locales
    ensures var code := RequestedCode(requested, cfg);
      && (code in files ==> RequestConfigFor(requested, cfg, files) == Config(code, files[code]))
      && (code !in files && cfg.defaultLocale in files ==>
            RequestConfigFor(requested, cfg, files) == Config(cfg.defaultLocale, files[cfg.defaultLocale]))
      && (code !in files && cfg.defaultLocale !in files ==>
            RequestConfigFor(requested, cfg, files) == Config(code, Object([])))
  {
  }

  /** An empty locale is not replaced by the default: it is looked up as is, and is unknown to the fixed list. */
  lemma EmptyLocaleIsNotDefaulted(files: map<string, Value>)
    ensures RequestedCode(Some(""), LocaleConfig(FallbackLocales, FallbackDefault)) == ""
    ensures RequestConfigFor(Some(""), LocaleConfig(FallbackLocales, FallbackDefault), files) == NotFound
    ensures RequestConfigFor(None, LocaleConfig(FallbackLocales, FallbackDefault), files).Config?
  {
  }

  /** With no active language every request is refused, the default included. */
  lemma NoActiveLanguagesRefusesAll(requested: Option<string>, files: map<string, Value>)
    ensures RequestConfigFor(requested, GetLocales(Ok([])), files) == NotFound
  {
  }
}
