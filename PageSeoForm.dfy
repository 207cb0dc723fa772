/**
 * The new page-SEO form: a page key, per-locale title, description and
 * keywords, a JSON-LD text box that can be filled from a template for the
 * homepage, contact and privacy pages, a canonical URL and a robots
 * directive. On submit the JSON-LD text is parsed, and an empty box sends null.
 */
module PageSeoForm {
  import opened Wrappers
  import opened Records
  import opened Localize
  import opened LocaleForms
  import opened JsValues

  datatype Form = Form(
    pageKey: string, title: LocalizedText, description: LocalizedText, keywords: LocalizedText,
    jsonLd: string, canonical: string, robots: string)

  datatype LocaleField = Title | Description | Keywords

  datatype PageState = PageState(supportedLocales: seq<string>, form: Form)

  function InitialState(): PageState {
    PageState(["en"], Form("", [], [], [], "", "", "index, follow"))
  }

  /** The per-locale field a `LocaleField` names. */
  function FieldOf(f: Form, field: LocaleField): LocalizedText {
    match field
    case Title => f.title
    case Description => f.description
    case Keywords => f.keywords
  }

  /**
   * `fetchSupportedLanguages`: on success title, description and keywords each
   * map every fetched locale to ''; on failure the locales fall back to
   * en, fr, es, it and the form is not initialised.
   */
  function LoadLanguages(s: PageState, fetched: Result<seq<string>, string>): (r: PageState)
    ensures fetched.Err? ==> r == PageState(FallbackFormLocales, s.form)
    ensures fetched.Ok? ==> r.supportedLocales == fetched.value
    ensures fetched.Ok? ==> forall field: LocaleField, k ::
      (k in fetched.value ==> Lookup(FieldOf(r.form, field), k) == Some(""))
      && (k in Keys(FieldOf(r.form, field)) <==> k in fetched.value)
    ensures r.form.pageKey == s.form.pageKey && r.form.jsonLd == s.form.jsonLd
    ensures r.form.canonical == s.form.canonical && r.form.robots == s.form.robots
  {
    match fetched
    case Ok(codes) =>
      EmptyLocaleMapSpec(codes);
      var empty := EmptyLocaleMap(codes);
      PageState(codes, s.form.(title := empty, description := empty, keywords := empty))
    case Err(_) => PageState(FallbackFormLocales, s.form)
  }

  /** `handleLocaleChange(field, locale, value)`: only `f[field][locale]` changes. */
  function LocaleChange(f: Form, field: LocaleField, locale: string, value: string): (r: Form)
    ensures forall other: LocaleField :: other != field ==> FieldOf(r, other) == FieldOf(f, other)
    ensures forall k :: Lookup(FieldOf(r, field), k) == if k == locale then Some(value) else Lookup(FieldOf(f, field), k)
    ensures r.pageKey == f.pageKey && r.jsonLd == f.jsonLd && r.canonical == f.canonical && r.robots == f.robots
  {
    match field
    case Title => f.(title := SetLocale(f.title, locale, value))
    case Description => f.(description := SetLocale(f.description, locale, value))
    case Keywords => f.(keywords := SetLocale(f.keywords, locale, value))
  }

  /** `defaultJsonLdTemplates[pageKey]`. */
  function Template(pageKey: string): (r: Option<Value>)
    ensures r.Some? <==> pageKey == "homepage" || pageKey == "contact" || pageKey == "privacy"
    ensures r.Some? ==> r.value.Object? && Get(r.value, "@context") == Str("https://schema.org")
  {
    if pageKey == "homepage" then
      Some(Object([
        ("@context", Str("https://schema.org")),
        ("@type", Str("WebSite")),
        ("name", Str("Bazoocam Live")),
        ("url", Str("https://www.bazoocam.live")),
        ("description", Str("En iyi video sohbet uygulamalar\U{0131}n\U{0131} ke\U{015F}fedin")),
        ("potentialAction", Object([
          ("@type", Str("SearchAction")),
          ("target", Str("https://www.bazoocam.live/search?q={search_term_string}")),
          ("query-input", Str("required name=search_term_string"))]))]))
    else if pageKey == "contact" then
      Some(Object([
        ("@context", Str("https://schema.org")),
        ("@type", Str("ContactPage")),
        ("name", Str("\U{0130}leti\U{015F}im - Bazoocam Live")),
        ("url", Str("https://www.bazoocam.live/contact")),
        ("description", Str("Bizimle ileti\U{015F}ime ge\U{00E7}in"))]))
    else if pageKey == "privacy" then
      Some(Object([
        ("@context", Str("https://schema.org")),
        ("@type", Str("WebPage")),
        ("name", Str("Gizlilik Politikas\U{0131} - Bazoocam Live")),
        ("url", Str("https://www.bazoocam.live/privacy")),
        ("description", Str("Gizlilik politikam\U{0131}z\U{0131} okuyun"))]))
    else None
  }

  /**
   * `loadJsonLdTemplate(pageKey)`: for the three known pages the JSON-LD box
   * receives the serialised template; any other key leaves the form unchanged.
   * `stringify` is `JSON.stringify(_, null, 2)`.
   */
  function LoadJsonLdTemplate(f: Form, pageKey: string, stringify: Value -> string): (r: Form)
    ensures Template(pageKey).None? ==> r == f
    ensures Template(pageKey).Some? ==> r == f.(jsonLd := stringify(Template(pageKey).value))
  {
    match Template(pageKey)
    case Some(t) => f.(jsonLd := stringify(t))
    case None => f
  }

  /**
   * The page-key select's `onChange`: `handleInputChange('pageKey', v)`, then
   * `loadJsonLdTemplate(v)`. A key without a template keeps whatever the
   * JSON-LD box held before.
   */
  function SelectPageKey(f: Form, key: string, stringify: Value -> string): (r: Form)
    ensures r.pageKey == key
    ensures r.jsonLd == if Template(key).Some? then stringify(Template(key).value) else f.jsonLd
    ensures r.title == f.title && r.description == f.description && r.keywords == f.keywords
    ensures r.canonical == f.canonical && r.robots == f.robots
  {
    LoadJsonLdTemplate(f.(pageKey := key), key, stringify)
  }

  /**
   * Choosing 'terms' after 'homepage' leaves the homepage JSON-LD in the box,
   * so the submitted page key and JSON-LD belong to different pages.
   */
  lemma TermsKeepsHomepageJsonLd(f: Form, stringify: Value -> string)
    ensures var r := SelectPageKey(SelectPageKey(f, "homepage", stringify), "terms", stringify);
      r.pageKey == "terms" && r.jsonLd == stringify(Template("homepage").value)
  {
  }

  /** The submitted body: the form with `jsonLd` parsed, or null when the box is empty. */
  datatype Payload = Payload(
    pageKey: string, title: LocalizedText, description: LocalizedText, keywords: LocalizedText,
    jsonLd: Value, canonical: string, robots: string)

  /**
   * `{ ...formData, jsonLd: formData.jsonLd ? JSON.parse(formData.jsonLd) : null }`;
   * a parse error aborts the submit.
   */
  function SubmitPayload(f: Form, parse: string -> Result<Value, string>): (r: Result<Payload, string>)
    ensures f.jsonLd == "" ==> r.Ok? && r.value.jsonLd == Null
    ensures f.jsonLd != "" ==> (r.Ok? <==> parse(f.jsonLd).Ok?)
    ensures f.jsonLd != "" && r.Ok? ==> r.value.jsonLd == parse(f.jsonLd).value
    ensures r.Ok? ==> r.value == Payload(f.pageKey, f.title, f.description, f.keywords, r.value.jsonLd, f.canonical, f.robots)
  {
    var payload := Payload(f.pageKey, f.title, f.description, f.keywords, Null, f.canonical, f.robots);
    if f.jsonLd == "" then Ok(payload)
    else match parse(f.jsonLd)
      case Ok(v) => Ok(payload.(jsonLd := v))
      case Err(e) => Err(e)
  }

  /**
   * Loading a template and submitting sends the template itself, as long as
   * parsing the serialised template gives it back.
   */
  lemma TemplateSubmitted(f: Form, pageKey: string, stringify: Value -> string, parse: string -> Result<Value, string>)
    requires Template(pageKey).Some?
    requires stringify(Template(pageKey).value) != ""
    requires parse(stringify(Template(pageKey).value)) == Ok(Template(pageKey).value)
    ensures SubmitPayload(LoadJsonLdTemplate(f, pageKey, stringify), parse).Ok?
    ensures SubmitPayload(LoadJsonLdTemplate(f, pageKey, stringify), parse).value.jsonLd == Template(pageKey).value
  {
  }
}
