/**
 * The root layout's metadata: one hreflang alternate per active locale
 * (English at the bare site URL, every other locale under "/" + locale)
 * and an `x-default` entry at the bare site URL. The list of active
 * locales is what the server language helper returned.
 */
module Layout {
  import opened Wrappers
  import opened Records
  import opened Locales
  import opened JsonLd

  /** The object the `forEach` has built after visiting `ls`, in order. */
  function LocaleEntries(ls: seq<LocaleInfo>): Record<string>
    decreases |ls|
  {
    if |ls| == 0 then []
    else
      var last := ls[|ls| - 1].locale;
      Put(LocaleEntries(ls[..|ls| - 1]), last, BaseUrl(last))
  }

  /** The finished `languages` object. */
  function Alternates(ls: seq<LocaleInfo>): Record<string> {
    Put(LocaleEntries(ls), "x-default", SiteUrl)
  }

  /** Each visited locale maps to its site URL, once; no other key is present. */
  lemma LocaleEntriesSpec(ls: seq<LocaleInfo>)
    ensures DistinctKeys(LocaleEntries(ls))
    ensures forall k :: k in Keys(LocaleEntries(ls)) <==> k in Codes(ls)
    ensures forall k :: Lookup(LocaleEntries(ls), k) == if k in Codes(ls) then Some(BaseUrl(k)) else None
  {
    LocaleEntriesKeys(ls);
    forall k ensures Lookup(LocaleEntries(ls), k) == if k in Codes(ls) then Some(BaseUrl(k)) else None {
      LocaleEntriesLookup(ls, k);
    }
  }

  /** The keys are the visited locales, each once. */
  lemma {:induction false} LocaleEntriesKeys(ls: seq<LocaleInfo>)
    ensures DistinctKeys(LocaleEntries(ls))
    ensures forall k :: k in Keys(LocaleEntries(ls)) <==> k in Codes(ls)
    decreases |ls|
  {
    if |ls| > 0 {
      var init := ls[..|ls| - 1];
      var last := ls[|ls| - 1].locale;
      LocaleEntriesKeys(init);
      PutDistinct(LocaleEntries(init), last, BaseUrl(last));
      KeysPut(LocaleEntries(init), last, BaseUrl(last));
      CodesLast(ls);
    }
  }

  /** The codes of a list are those of all but its last entry, plus the last one's. */
  lemma CodesLast(ls: seq<LocaleInfo>)
    requires |ls| > 0
    ensures forall k :: k in Codes(ls) <==> k in Codes(ls[..|ls| - 1]) || k == ls[|ls| - 1].locale
  {
    assert Codes(ls) == Codes(ls[..|ls| - 1]) + [ls[|ls| - 1].locale];
  }

  /** A visited locale reads back as its site URL, any other key as missing. */
  lemma {:induction false} LocaleEntriesLookup(ls: seq<LocaleInfo>, k: string)
    ensures Lookup(LocaleEntries(ls), k) == if k in Codes(ls) then Some(BaseUrl(k)) else None
    decreases |ls|
  {
    if |ls| > 0 {
      var init := ls[..|ls| - 1];
      var last := ls[|ls| - 1].locale;
      LocaleEntriesLookup(init, k);
      LookupPut(LocaleEntries(init), last, BaseUrl(last), k);
      CodesLast(ls);
    }
  }

  /**
   * `x-default` is the bare site URL; every active locale other than a
   * locale literally named `x-default` maps to its site URL; the keys are
   * the distinct active locales plus `x-default`.
   */
  lemma AlternatesSpec(ls: seq<LocaleInfo>)
    ensures DistinctKeys(Alternates(ls))
    ensures forall k :: k in Keys(Alternates(ls)) <==> k in Codes(ls) || k == "x-default"
    ensures Lookup(Alternates(ls), "x-default") == Some(SiteUrl)
    ensures forall k :: k != "x-default" && k in Codes(ls) ==> Lookup(Alternates(ls), k) == Some(BaseUrl(k))
    ensures forall k :: k != "x-default" && k !in Codes(ls) ==> Lookup(Alternates(ls), k) == None
  {
    AlternatesKeys(ls);
    AlternatesLookup(ls, "x-default");
    forall k | k != "x-default" ensures Lookup(Alternates(ls), k) == if k in Codes(ls) then Some(BaseUrl(k)) else None {
      AlternatesLookup(ls, k);
    }
  }

  /** One key of the finished object: `x-default`, an active locale, or missing. */
  lemma AlternatesLookup(ls: seq<LocaleInfo>, k: string)
    ensures Lookup(Alternates(ls), k) ==
      if k == "x-default" then Some(SiteUrl) else if k in Codes(ls) then Some(BaseUrl(k)) else None
  {
    LookupPut(LocaleEntries(ls), "x-default", SiteUrl, k);
    LocaleEntriesLookup(ls, k);
  }

  /** The finished object's keys: the distinct active locales plus `x-default`. */
  lemma AlternatesKeys(ls: seq<LocaleInfo>)
    ensures DistinctKeys(Alternates(ls))
    ensures forall k :: k in Keys(Alternates(ls)) <==> k in Codes(ls) || k == "x-default"
  {
    LocaleEntriesKeys(ls);
    PutDistinct(LocaleEntries(ls), "x-default", SiteUrl);
    KeysPut(LocaleEntries(ls), "x-default", SiteUrl);
  }

  /** English and `x-default` both point at the bare site URL; another locale L at the site URL + "/" + L. */
  lemma EnglishIsBare(l: string)
    ensures BaseUrl("en") == SiteUrl
    ensures l != "en" ==> BaseUrl(l) == SiteUrl + "/" + l
  {
  }

  /** `generateMetadata`: the `forEach` over the active locales, then the `x-default` entry. */
  method GenerateMetadata(activeLanguages: seq<LocaleInfo>) returns (languages: Record<string>)
    ensures languages == Alternates(activeLanguages)
  {
    languages := [];
    var i := 0;
    while i < |activeLanguages|
      invariant 0 <= i <= |activeLanguages|
      invariant languages == LocaleEntries(activeLanguages[..i])
    {
      var lang := activeLanguages[i];
      assert activeLanguages[..i + 1][..i] == activeLanguages[..i];
      if lang.locale == "en" {
        assert BaseUrl(lang.locale) == SiteUrl;
        languages := Put(languages, lang.locale, SiteUrl);
      } else {
        assert BaseUrl(lang.locale) == SiteUrl + "/" + lang.locale;
        languages := Put(languages, lang.locale, SiteUrl + "/" + lang.locale);
      }
      i := i + 1;
    }
    assert activeLanguages[..i] == activeLanguages;
    languages := Put(languages, "x-default", SiteUrl);
  }
}
