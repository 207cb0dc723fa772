/**
 * The new-category form: a slug and per-locale name and description. The
 * slug can be generated from the first non-empty of the English, French,
 * Spanish and Italian names.
 */
module CategoryForm {
  import opened Wrappers
  import opened Records
  import opened Localize
  import opened LocaleForms
  import opened Slugs

  datatype Form = Form(slug: string, name: LocalizedText, description: LocalizedText)

  /** The two per-locale fields `handleLocaleChange` may address. */
  datatype LocaleField = Name | Description

  /** The supported locales (initially just English) and the form (initially empty). */
  datatype PageState = PageState(supportedLocales: seq<string>, form: Form)

  function InitialState(): PageState {
    PageState(["en"], Form("", [], []))
  }

  /**
   * `fetchSupportedLanguages`: on success the locales are the fetched codes and
   * name and description get one '' entry per code; on failure the locales fall
   * back to en, fr, es, it and the form is left as it was.
   */
  function LoadLanguages(s: PageState, fetched: Result<seq<string>, string>): (r: PageState)
    ensures r.form.slug == s.form.slug
    ensures fetched.Err? ==> r == PageState(FallbackFormLocales, s.form)
    ensures fetched.Ok? ==> r.supportedLocales == fetched.value
    ensures fetched.Ok? ==> forall k :: k in fetched.value ==> Lookup(r.form.name, k) == Some("") && Lookup(r.form.description, k) == Some("")
    ensures fetched.Ok? ==> forall k :: k in Keys(r.form.name) <==> k in fetched.value
    ensures fetched.Ok? ==> forall k :: k in Keys(r.form.description) <==> k in fetched.value
  {
    match fetched
    case Ok(codes) =>
      EmptyLocaleMapSpec(codes);
      PageState(codes, s.form.(name := EmptyLocaleMap(codes), description := EmptyLocaleMap(codes)))
    case Err(_) => PageState(FallbackFormLocales, s.form)
  }

  /** `handleInputChange('slug', value)`. */
  function SetSlug(f: Form, value: string): (r: Form)
    ensures r.slug == value && r.name == f.name && r.description == f.description
  {
    f.(slug := value)
  }

  /** `handleLocaleChange(field, locale, value)`: only `f[field][locale]` changes. */
  function LocaleChange(f: Form, field: LocaleField, locale: string, value: string): (r: Form)
    ensures r.slug == f.slug
    ensures field == Name ==> r.description == f.description
    ensures field == Description ==> r.name == f.name
    ensures var before := if field == Name then f.name else f.description;
            var after := if field == Name then r.name else r.description;
            forall k :: Lookup(after, k) == if k == locale then Some(value) else Lookup(before, k)
  {
    match field
    case Name => f.(name := SetLocale(f.name, locale, value))
    case Description => f.(description := SetLocale(f.description, locale, value))
  }

  /** `formData.name.en || formData.name.fr || formData.name.es || formData.name.it`. */
  function SlugSource(name: LocalizedText): (r: string)
    ensures r == "" <==> At(name, "en") == "" && At(name, "fr") == "" && At(name, "es") == "" && At(name, "it") == ""
    ensures r != "" ==> r in [At(name, "en"), At(name, "fr"), At(name, "es"), At(name, "it")]
    ensures At(name, "en") != "" ==> r == At(name, "en")
  {
    if At(name, "en") != "" then At(name, "en")
    else if At(name, "fr") != "" then At(name, "fr")
    else if At(name, "es") != "" then At(name, "es")
    else At(name, "it")
  }

  /**
   * `generateSlugFromName`: with no name in any of the four locales the form is
   * unchanged; otherwise only the slug changes, to a string of `[a-z0-9-]` with
   * single hyphens between words and none at either end.
   */
  function GenerateSlugFromName(f: Form): (r: Form)
    ensures SlugSource(f.name) == "" ==> r == f
    ensures SlugSource(f.name) != "" ==> r == f.(slug := CategorySlug(SlugSource(f.name)))
    ensures r.name == f.name && r.description == f.description
    ensures SlugSource(f.name) != "" ==>
      && (forall c :: c in r.slug ==> IsSlugChar(c))
      && Collapsed(r.slug, NotAlnum, '-')
      && (|r.slug| > 0 ==> r.slug[0] != '-' && r.slug[|r.slug| - 1] != '-')
  {
    var name := SlugSource(f.name);
    if name != "" then f.(slug := CategorySlug(name)) else f
  }

  /**
   * Typing the generated slug in as the English name and generating again
   * gives the same slug.
   */
  lemma RegenerateFromSlug(f: Form)
    requires SlugSource(f.name) != ""
    ensures var g := GenerateSlugFromName(f);
            g.slug != "" ==> GenerateSlugFromName(LocaleChange(g, Name, "en", g.slug)).slug == g.slug
  {
    var g := GenerateSlugFromName(f);
    if g.slug != "" {
      EnglishNameIsSource(g, g.slug);
      CategorySlugIdempotent(SlugSource(f.name));
    }
  }

  /** Once a non-empty English name is typed in, it is the text the slug is generated from. */
  lemma EnglishNameIsSource(g: Form, v: string)
    requires v != ""
    ensures SlugSource(LocaleChange(g, Name, "en", v).name) == v
  {
    var h := LocaleChange(g, Name, "en", v);
    assert Lookup(h.name, "en") == Some(v);
  }
}
