/**
 * The client-side language helpers (`src/lib/clientLanguages.ts`): the
 * active languages fetched from the admin API through the shared cache, and
 * lookups over a language list. The API's answer is an argument.
 */
module ClientLanguages {
  import opened Wrappers
  import opened Records
  import opened Locales
  import opened JsValues
  import LanguageModel
  import Cache

  const LanguagesKey: string := "active-languages"

  /** The parsed API answer: `{ success, data }`, or a failed request or unparsable body. */
  datatype ApiResponse = FetchFailed | Body(success: bool, data: seq<LanguageModel.LanguageDoc>)

  /** The `{ locale, name, flag }` object stored in the cache for one language. */
  function EncodeLocale(l: LocaleInfo): Value {
    Object([("locale", Str(l.locale)), ("name", Str(l.name)), ("flag", Str(l.flag))])
  }

  function EncodeLocales(ls: seq<LocaleInfo>): (r: Value)
    ensures r.Array? && |r.items| == |ls|
    ensures forall i :: 0 <= i < |ls| ==> r.items[i] == EncodeLocale(ls[i])
  {
    Array(seq(|ls|, i requires 0 <= i < |ls| => EncodeLocale(ls[i])))
  }

  function DecodeLocale(v: Value): Option<LocaleInfo> {
    match (Get(v, "locale"), Get(v, "name"), Get(v, "flag"))
    case (Str(l), Str(n), Str(f)) => Some(LocaleInfo(l, n, f))
    case _ => None
  }

  function DecodeItems(items: seq<Value>): Option<seq<LocaleInfo>> {
    if |items| == 0 then Some([])
    else match (DecodeLocale(items[0]), DecodeItems(items[1..]))
      case (Some(l), Some(ls)) => Some([l] + ls)
      case _ => None
  }

  /** Reads a cached value back as a language list. */
  function DecodeLocales(v: Value): Option<seq<LocaleInfo>> {
    if v.Array? then DecodeItems(v.items) else None
  }

  lemma DecodeEncodeLocale(l: LocaleInfo)
    ensures DecodeLocale(EncodeLocale(l)) == Some(l)
  {
    var fields := [("locale", Str(l.locale)), ("name", Str(l.name)), ("flag", Str(l.flag))];
    assert Lookup(fields, "locale") == Some(Str(l.locale));
    assert "name" != "locale" && "flag" != "locale" && "flag" != "name";
    assert Lookup(fields, "name") == Lookup(fields[1..], "name") == Some(Str(l.name));
    assert Lookup(fields, "flag") == Lookup(fields[1..], "flag") == Lookup(fields[2..], "flag") == Some(Str(l.flag));
  }

  lemma {:induction false} DecodeItemsEncoded(ls: seq<LocaleInfo>)
    ensures DecodeItems(EncodeLocales(ls).items) == Some(ls)
  {
    if |ls| > 0 {
      var items := EncodeLocales(ls).items;
      assert items[1..] == EncodeLocales(ls[1..]).items;
      DecodeItemsEncoded(ls[1..]);
      DecodeEncodeLocale(ls[0]);
      assert [ls[0]] + ls[1..] == ls;
    }
  }

  /** What is cached is read back unchanged. */
  lemma DecodeEncode(ls: seq<LocaleInfo>)
    ensures DecodeLocales(EncodeLocales(ls)) == Some(ls)
  {
    DecodeItemsEncoded(ls);
  }

  function ApiLocale(d: LanguageModel.LanguageDoc): LocaleInfo {
    LocaleInfo(d.code, d.name, d.flag)
  }

  /** `data.filter(lang => lang.isActive).map(...)`: the active records, projected, in order. */
  function ActiveLocales(data: seq<LanguageModel.LanguageDoc>): (r: seq<LocaleInfo>)
    ensures |r| <= |data|
  {
    if |data| == 0 then [] else ActiveHead(data[0]) + ActiveLocales(data[1..])
  }

  /** What the filter keeps of one record: its projection when it is active, or nothing. */
  function ActiveHead(d: LanguageModel.LanguageDoc): seq<LocaleInfo> {
    if d.isActive then [ApiLocale(d)] else []
  }

  /** Every entry comes from an active record, and every active record has its entry. */
  lemma {:induction false} ActiveLocalesMembers(data: seq<LanguageModel.LanguageDoc>)
    ensures forall l :: l in ActiveLocales(data) ==> exists d :: d in data && d.isActive && l == ApiLocale(d)
    ensures forall d :: d in data && d.isActive ==> ApiLocale(d) in ActiveLocales(data)
  {
    if |data| > 0 {
      ActiveLocalesMembers(data[1..]);
      assert data == [data[0]] + data[1..];
    }
  }

  /** With no active record the list is empty. */
  lemma {:induction false} NoneActiveNoLocales(data: seq<LanguageModel.LanguageDoc>)
    requires forall d :: d in data ==> !d.isActive
    ensures ActiveLocales(data) == []
  {
    if |data| > 0 {
      assert data[0] in data;
      assert forall d :: d in data[1..] ==> d in data;
      NoneActiveNoLocales(data[1..]);
    }
  }

  /** The filter keeps the records' order: it distributes over concatenation. */
  lemma {:induction false} ActiveLocalesConcat(a: seq<LanguageModel.LanguageDoc>, b: seq<LanguageModel.LanguageDoc>)
    ensures ActiveLocales(a + b) == ActiveLocales(a) + ActiveLocales(b)
  {
    if |a| > 0 {
      assert (a + b)[0] == a[0];
      assert (a + b)[1..] == a[1..] + b;
      ActiveLocalesConcat(a[1..], b);
    } else {
      assert a + b == b;
    }
  }

  /** The one invariant readers rely on: a cached language list is a well-formed list. */
  predicate CacheWellFormed(entries: map<string, Cache.Entry<Value>>) {
    LanguagesKey in entries ==> DecodeLocales(entries[LanguagesKey].data).Some?
  }

  /** The cached value `fetchActiveLanguages` would use at `now`, when it is truthy. */
  function CachedLanguages(entries: map<string, Cache.Entry<Value>>, now: int): Option<Value> {
    match Cache.Read(entries, LanguagesKey, now, Cache.DefaultDuration)
    case Some(v) => if Truthy(v) then Some(v) else None
    case None => None
  }

  /** What `fetchActiveLanguages` returns: the cached list, the active records, or the fallback list. */
  function FetchedLanguages(entries: map<string, Cache.Entry<Value>>, now: int, response: ApiResponse): seq<LocaleInfo>
    requires CacheWellFormed(entries)
  {
    match CachedLanguages(entries, now)
    case Some(v) => DecodeLocales(v).value
    case None =>
      if response.Body? && response.success then ActiveLocales(response.data) else FallbackLocales
  }

  /** The cache after `fetchActiveLanguages`: only a successful fetch writes, under 'active-languages'. */
  function FetchedEntries(entries: map<string, Cache.Entry<Value>>, now: int, response: ApiResponse): map<string, Cache.Entry<Value>> {
    if CachedLanguages(entries, now).None? && response.Body? && response.success
    then entries[LanguagesKey := Cache.Entry(now, EncodeLocales(ActiveLocales(response.data)))]
    else entries
  }

  /** `fetchActiveLanguages`. */
  method FetchActiveLanguages(cache: Cache.TtlCache<Value>, now: int, response: ApiResponse) returns (r: seq<LocaleInfo>)
    modifies cache
    requires CacheWellFormed(cache.entries)
    ensures r == FetchedLanguages(old(cache.entries), now, response)
    ensures cache.entries == FetchedEntries(old(cache.entries), now, response)
    ensures CacheWellFormed(cache.entries)
  {
    var cached := cache.Get(LanguagesKey, now, Cache.DefaultDuration);
    if cached.Some? && Truthy(cached.value) {
      r := DecodeLocales(cached.value).value;
      return;
    }
    if response.Body? && response.success {
      r := ActiveLocales(response.data);
      cache.Set(LanguagesKey, EncodeLocales(r), now);
      DecodeEncode(r);
    } else {
      r := FallbackLocales;
    }
  }

  /** `fetchActiveLanguageCodes`: the codes of the fetched list, in order. */
  method FetchActiveLanguageCodes(cache: Cache.TtlCache<Value>, now: int, response: ApiResponse) returns (r: seq<string>)
    modifies cache
    requires CacheWellFormed(cache.entries)
    ensures r == Codes(FetchedLanguages(old(cache.entries), now, response))
    ensures CacheWellFormed(cache.entries)
  {
    var ls := FetchActiveLanguages(cache, now, response);
    r := Codes(ls);
  }

  /** A failed request or an unsuccessful answer gives the fallback list and writes nothing. */
  lemma FailedFetchFallsBack(entries: map<string, Cache.Entry<Value>>, now: int, response: ApiResponse)
    requires CacheWellFormed(entries) && CachedLanguages(entries, now).None?
    requires !(response.Body? && response.success)
    ensures Codes(FetchedLanguages(entries, now, response)) == ["en", "fr", "es", "it"]
    ensures FetchedEntries(entries, now, response) == entries
  {
    FallbackCodes();
  }

  /**
   * After a successful fetch, any fetch within the next ten minutes returns the
   * same list without consulting the API.
   */
  lemma RefetchWithinWindow(entries: map<string, Cache.Entry<Value>>, now1: int, response1: ApiResponse,
                            now2: int, response2: ApiResponse)
    requires CacheWellFormed(entries) && CachedLanguages(entries, now1).None?
    requires response1.Body? && response1.success
    requires now2 - now1 <= Cache.DefaultDuration
    ensures CacheWellFormed(FetchedEntries(entries, now1, response1))
    ensures FetchedLanguages(FetchedEntries(entries, now1, response1), now2, response2)
      == FetchedLanguages(entries, now1, response1)
    ensures FetchedEntries(FetchedEntries(entries, now1, response1), now2, response2)
      == FetchedEntries(entries, now1, response1)
  {
    var ls := ActiveLocales(response1.data);
    DecodeEncode(ls);
    var e1 := FetchedEntries(entries, now1, response1);
    assert e1[LanguagesKey] == Cache.Entry(now1, EncodeLocales(ls));
    assert CachedLanguages(e1, now2) == Some(EncodeLocales(ls));
  }

  /** Writing any other key keeps the cached language list well formed. */
  lemma OtherKeyKeepsWellFormed(entries: map<string, Cache.Entry<Value>>, key: string, e: Cache.Entry<Value>)
    requires CacheWellFormed(entries) && key != LanguagesKey
    ensures CacheWellFormed(entries[key := e])
  {
  }

  /** `getLanguageByCode`: the first language whose code matches, if any. */
  function LanguageByCode(languages: seq<LocaleInfo>, code: string): (r: Option<LocaleInfo>)
    ensures r.None? <==> forall i :: 0 <= i < |languages| ==> languages[i].locale != code
    ensures r.Some? ==> exists i :: (0 <= i < |languages| && languages[i] == r.value &&
      r.value.locale == code && forall j :: 0 <= j < i ==> languages[j].locale != code)
  {
    if |languages| == 0 then None
    else if languages[0].locale == code then Some(languages[0])
    else
      var r := LanguageByCode(languages[1..], code);
      assert forall j :: 1 <= j < |languages| ==> languages[j] == languages[1..][j - 1];
      r
  }

  /** `getDefaultLanguage`: the English entry if listed, else the first entry (`undefined` for none). */
  function DefaultLanguage(languages: seq<LocaleInfo>): (r: Option<LocaleInfo>)
    ensures r.Some? <==> |languages| > 0
    ensures LanguageByCode(languages, "en").Some? ==> r == LanguageByCode(languages, "en")
    ensures LanguageByCode(languages, "en").None? && |languages| > 0 ==> r == Some(languages[0])
  {
    match LanguageByCode(languages, "en")
    case Some(l) => Some(l)
    case None => if |languages| == 0 then None else Some(languages[0])
  }
}
