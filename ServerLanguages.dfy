/**
 * The server-side language helpers (`src/lib/languages.ts`): the active
 * language list behind a module-level five-minute cache, the list of codes,
 * the default code, and the start-up repair that makes English the default.
 */
module ServerLanguages {
  import opened Wrappers
  import opened Locales
  import opened LanguageModel

  /** `CACHE_DURATION`: five minutes in milliseconds. */
  const CacheDuration: int := 5 * 60 * 1000

  /** A record returned by the active-languages query; a missing field reads as `None`. */
  datatype LanguageRow = LanguageRow(code: Option<string>, name: Option<string>, flag: Option<string>)

  /** `x || ''` on an optional string field. */
  function OrEmpty(x: Option<string>): (r: string)
    ensures x.Some? ==> r == x.value
    ensures x.None? ==> r == ""
  {
    x.GetOr("")
  }

  function RowLocale(row: LanguageRow): LocaleInfo {
    LocaleInfo(OrEmpty(row.code), OrEmpty(row.name), OrEmpty(row.flag))
  }

  /** The `languages.map(...)` projection: one `LocaleInfo` per row, in order. */
  function RowLocales(rows: seq<LanguageRow>): (r: seq<LocaleInfo>)
    ensures |r| == |rows|
    ensures forall i :: 0 <= i < |rows| ==> r[i] == RowLocale(rows[i])
  {
    if |rows| == 0 then [] else [RowLocale(rows[0])] + RowLocales(rows[1..])
  }

  /** The cache check: a list is stored and strictly less than five minutes old. */
  predicate Fresh(cached: Option<seq<LocaleInfo>>, timestamp: int, now: int) {
    cached.Some? && now - timestamp < CacheDuration
  }

  /** What `getActiveLanguages` returns, given the cache state, the clock and the query outcome. */
  function ActiveLanguages(cached: Option<seq<LocaleInfo>>, timestamp: int, now: int,
                           load: Result<seq<LanguageRow>, string>): seq<LocaleInfo> {
    if Fresh(cached, timestamp, now) then cached.value
    else match load
      case Ok(rows) => RowLocales(rows)
      case Err(_) => FallbackLocales
  }

  class LanguageCache {
    var cachedLanguages: Option<seq<LocaleInfo>>
    var cacheTimestamp: int

    constructor()
      ensures cachedLanguages == None && cacheTimestamp == 0
    {
      cachedLanguages := None;
      cacheTimestamp := 0;
    }

    /**
     * `getActiveLanguages`: a fresh cached list is returned as is; otherwise the
     * store's rows are projected and cached with the time read at entry; a
     * store failure returns the fallback list and leaves the cache alone.
     */
    method GetActiveLanguages(now: int, load: Result<seq<LanguageRow>, string>) returns (r: seq<LocaleInfo>)
      modifies this
      ensures r == ActiveLanguages(old(cachedLanguages), old(cacheTimestamp), now, load)
      ensures !Fresh(old(cachedLanguages), old(cacheTimestamp), now) && load.Ok?
        ==> cachedLanguages == Some(r) && cacheTimestamp == now
      ensures Fresh(old(cachedLanguages), old(cacheTimestamp), now) || load.Err?
        ==> cachedLanguages == old(cachedLanguages) && cacheTimestamp == old(cacheTimestamp)
    {
      if cachedLanguages.Some? && now - cacheTimestamp < CacheDuration {
        return cachedLanguages.value;
      }
      match load {
        case Ok(rows) =>
          r := RowLocales(rows);
          cachedLanguages := Some(r);
          cacheTimestamp := now;
        case Err(_) =>
          r := FallbackLocales;
      }
    }

    /** `getActiveLanguageCodes`: the codes of whatever `getActiveLanguages` returns. */
    method GetActiveLanguageCodes(now: int, load: Result<seq<LanguageRow>, string>) returns (r: seq<string>)
      modifies this
      ensures r == Codes(ActiveLanguages(old(cachedLanguages), old(cacheTimestamp), now, load))
    {
      var ls := GetActiveLanguages(now, load);
      r := Codes(ls);
    }

    /** Two calls within five minutes of a successful load return the same list, whatever the store does. */
    method GetTwice(now1: int, load1: Result<seq<LanguageRow>, string>, now2: int, load2: Result<seq<LanguageRow>, string>)
      returns (r1: seq<LocaleInfo>, r2: seq<LocaleInfo>)
      modifies this
      requires !Fresh(cachedLanguages, cacheTimestamp, now1)
      requires load1.Ok? && now1 <= now2 < now1 + CacheDuration
      ensures r2 == r1
    {
      r1 := GetActiveLanguages(now1, load1);
      r2 := GetActiveLanguages(now2, load2);
    }
  }

  /** The window is strict, unlike the shared cache's: exactly five minutes later the list is reloaded. */
  lemma WindowIsStrict(ls: seq<LocaleInfo>, t: int)
    ensures CacheDuration == 300000
    ensures Fresh(Some(ls), t, t + CacheDuration - 1)
    ensures !Fresh(Some(ls), t, t + CacheDuration)
  {
  }

  /** An empty cached list still counts as cached: only `null` forces a load. */
  lemma EmptyListIsCached(t: int, now: int, load: Result<seq<LanguageRow>, string>)
    requires now - t < CacheDuration
    ensures ActiveLanguages(Some([]), t, now, load) == []
  {
  }

  /** A failed load yields exactly English, French, Spanish and Italian. */
  lemma FailedLoadFallsBack(cached: Option<seq<LocaleInfo>>, t: int, now: int, e: string)
    requires !Fresh(cached, t, now)
    ensures Codes(ActiveLanguages(cached, t, now, Err(e))) == ["en", "fr", "es", "it"]
  {
    FallbackCodes();
  }

  /** `findOne({ isDefault: true })`: the position of the first default record. */
  function FirstDefault(docs: seq<LanguageDoc>): (r: Option<nat>)
    ensures r.Some? ==> r.value < |docs| && docs[r.value].isDefault
    ensures r.Some? ==> forall j :: 0 <= j < r.value ==> !docs[j].isDefault
    ensures r.None? ==> forall j :: 0 <= j < |docs| ==> !docs[j].isDefault
  {
    if |docs| == 0 then None
    else if docs[0].isDefault then Some(0)
    else match FirstDefault(docs[1..])
      case None => None
      case Some(i) => Some(i + 1)
  }

  /** `getDefaultLanguage`: the default record's code, or 'en' when there is none, its code is empty, or the store fails. */
  function DefaultLanguageCode(store: Result<seq<LanguageDoc>, string>): (r: string)
    ensures r != ""
    ensures store.Err? ==> r == "en"
    ensures store.Ok? && FirstDefault(store.value).None? ==> r == "en"
    ensures store.Ok? && FirstDefault(store.value).Some? && store.value[FirstDefault(store.value).value].code != ""
      ==> r == store.value[FirstDefault(store.value).value].code
  {
    match store
    case Err(_) => "en"
    case Ok(docs) =>
      match FirstDefault(docs)
      case None => "en"
      case Some(i) => if docs[i].code != "" then docs[i].code else "en"
  }

  /** The record `ensureDefaultLanguagesExist` creates when there is no English one. */
  const EnglishInput: LanguageInput :=
    LanguageInput("en", "English", "English", "\U{1F1FA}\U{1F1F8}", Some(true), Some(true))

  /**
   * Where the database throws inside `ensureDefaultLanguagesExist`: at the
   * connection or the `findOne`, at the first write (the pre-save hook's
   * `updateMany`, or the explicit `updateMany`), or at the second write (the
   * insert, or `findByIdAndUpdate`). The `catch` swallows every one.
   */
  datatype StoreFailure = NoFailure | FailsAtLookup | FailsAtFirstWrite | FailsAtSecondWrite

  /** The collection after `ensureDefaultLanguagesExist`, from the collection before it. */
  function EnsureDefault(docs: seq<LanguageDoc>, nextId: nat, failure: StoreFailure): seq<LanguageDoc> {
    if failure == FailsAtLookup then docs
    else match FindByCode(docs, "en")
      case None => AddEnglish(docs, nextId, failure)
      case Some(i) => PromoteEnglish(docs, i, failure)
  }

  /** No English record: the default English record is saved. */
  function AddEnglish(docs: seq<LanguageDoc>, nextId: nat, failure: StoreFailure): seq<LanguageDoc> {
    if failure == FailsAtFirstWrite then docs
    else if failure == FailsAtSecondWrite then SaveInsertFails(docs, FromInput(nextId, EnglishInput)).docs
    else SaveNewAsWritten(docs, FromInput(nextId, EnglishInput)).docs
  }

  /** The English record at `i`: when it is not default, clear every default and then set it. */
  function PromoteEnglish(docs: seq<LanguageDoc>, i: nat, failure: StoreFailure): seq<LanguageDoc>
    requires i < |docs|
  {
    if docs[i].isDefault || failure == FailsAtFirstWrite then docs
    else if failure == FailsAtSecondWrite then ClearAllDefaults(docs)
    else SetDefaultById(ClearAllDefaults(docs), docs[i].id)
  }

  /** `ensureDefaultLanguagesExist` over the store, with the database failing as `failure` says. */
  method EnsureDefaultLanguagesExist(store: LanguageStore, failure: StoreFailure)
    modifies store
    ensures store.docs == EnsureDefault(old(store.docs), old(store.nextId), failure)
  {
    if failure == FailsAtLookup {
      return;
    }
    var found := FindByCode(store.docs, "en");
    match found {
      case None =>
        if failure != FailsAtFirstWrite {
          var _ := store.Insert(EnglishInput, failure == FailsAtSecondWrite);
        }
      case Some(i) =>
        if !store.docs[i].isDefault && failure != FailsAtFirstWrite {
          var id := store.docs[i].id;
          store.ClearDefaults();
          if failure != FailsAtSecondWrite {
            store.MakeDefault(id);
          }
        }
    }
  }

  /** An existing English record that is already default: nothing changes. */
  lemma EnsureDefaultIdle(docs: seq<LanguageDoc>, nextId: nat, i: nat)
    requires i < |docs| && docs[i].code == "en" && docs[i].isDefault
    requires forall j :: 0 <= j < i ==> docs[j].code != "en"
    ensures forall failure :: EnsureDefault(docs, nextId, failure) == docs
  {
    var f := FindByCode(docs, "en");
    assert f.Some?;
    assert f.value == i by {
      if f.value < i { } else if f.value > i { }
    }
  }

  lemma NormalizedEn()
    ensures NormalizeCode("en") == "en"
  {
    JsStrings.ToLowerAsciiFixed("en");
    JsStrings.TrimNoEdgeSpace("en");
  }

  lemma TrimmedEnglish()
    ensures JsStrings.Trim("English") == "English"
  {
    JsStrings.TrimNoEdgeSpace("English");
  }

  /** The English record the repair inserts is valid and normalised to code 'en'. */
  lemma EnglishInputValid(id: nat)
    ensures FromInput(id, EnglishInput).code == "en"
    ensures FromInput(id, EnglishInput).isDefault
    ensures Violations(FromInput(id, EnglishInput)) == {}
  {
    NormalizedEn();
    TrimmedEnglish();
  }

  /** Clearing every default and then setting one id leaves that record as the only default. */
  lemma SetOnlyDefault(docs: seq<LanguageDoc>, i: nat)
    requires UniqueIds(docs) && i < |docs|
    ensures var out := SetDefaultById(ClearAllDefaults(docs), docs[i].id);
      |out| == |docs| &&
      (forall j :: 0 <= j < |docs| ==> out[j].code == docs[j].code) &&
      (forall j :: 0 <= j < |docs| ==> (out[j].isDefault <==> j == i))
  {
    var cleared := ClearAllDefaults(docs);
    var out := SetDefaultById(cleared, docs[i].id);
    forall j | 0 <= j < |docs|
      ensures out[j].code == docs[j].code && (out[j].isDefault <==> j == i)
    {
      assert cleared[j] == docs[j].(isDefault := false);
      if j < i { assert docs[j].id != docs[i].id; }
      if j > i { assert docs[i].id != docs[j].id; }
    }
  }

  /** Adding English keeps the invariants; with no failure the new last record is the English default. */
  lemma AddEnglishKeeps(docs: seq<LanguageDoc>, nextId: nat, failure: StoreFailure)
    requires UniqueCodes(docs) && AtMostOneDefault(docs) && !CodeTaken(docs, "en")
    requires forall j :: 0 <= j < |docs| ==> docs[j].id < nextId
    ensures UniqueCodes(AddEnglish(docs, nextId, failure)) && AtMostOneDefault(AddEnglish(docs, nextId, failure))
    ensures failure == NoFailure ==> (|AddEnglish(docs, nextId, failure)| == |docs| + 1 &&
      AddEnglish(docs, nextId, failure)[|docs|].code == "en" && AddEnglish(docs, nextId, failure)[|docs|].isDefault)
  {
    var d := FromInput(nextId, EnglishInput);
    assert d.id == nextId;
    SaveNewAsWrittenKeepsInvariants(docs, d);
    if failure == FailsAtFirstWrite {
      assert AddEnglish(docs, nextId, failure) == docs;
    } else if failure == FailsAtSecondWrite {
      assert AddEnglish(docs, nextId, failure) == SaveInsertFails(docs, d).docs;
    } else {
      EnglishInputValid(nextId);
      var out := SaveNewAsWritten(docs, d);
      assert out.result.Ok?;
      assert AddEnglish(docs, nextId, failure) == out.docs;
    }
  }

  /** Promoting English keeps the invariants; with no failure it is the English default. */
  lemma PromoteEnglishKeeps(docs: seq<LanguageDoc>, i: nat, failure: StoreFailure)
    requires UniqueIds(docs) && UniqueCodes(docs) && AtMostOneDefault(docs)
    requires i < |docs| && docs[i].code == "en"
    ensures UniqueCodes(PromoteEnglish(docs, i, failure)) && AtMostOneDefault(PromoteEnglish(docs, i, failure))
    ensures failure == NoFailure ==> (|PromoteEnglish(docs, i, failure)| == |docs| &&
      PromoteEnglish(docs, i, failure)[i].code == "en" && PromoteEnglish(docs, i, failure)[i].isDefault)
  {
    var out := PromoteEnglish(docs, i, failure);
    if docs[i].isDefault || failure == FailsAtFirstWrite {
    } else if failure == FailsAtSecondWrite {
      FlagsClearedKeepInvariants(docs, out);
    } else {
      SetOnlyDefault(docs, i);
      forall a, b | 0 <= a < b < |out|
        ensures out[a].code != out[b].code
      {
        assert out[a].code == docs[a].code && out[b].code == docs[b].code;
      }
    }
  }

  /**
   * After the repair, a store with unique ids and codes and at most one default
   * keeps unique codes and at most one default whatever the database does,
   * and when no call fails it has an English record that is the only default.
   */
  lemma {:induction false} EnsureDefaultEstablishes(docs: seq<LanguageDoc>, nextId: nat, failure: StoreFailure)
    requires UniqueIds(docs) && UniqueCodes(docs) && AtMostOneDefault(docs)
    requires forall j :: 0 <= j < |docs| ==> docs[j].id < nextId
    ensures UniqueCodes(EnsureDefault(docs, nextId, failure)) && AtMostOneDefault(EnsureDefault(docs, nextId, failure))
    ensures failure == NoFailure ==> exists k :: (0 <= k < |EnsureDefault(docs, nextId, failure)| &&
      EnsureDefault(docs, nextId, failure)[k].code == "en" && EnsureDefault(docs, nextId, failure)[k].isDefault)
  {
    if failure != FailsAtLookup {
      match FindByCode(docs, "en") {
        case None =>
          AddEnglishKeeps(docs, nextId, failure);
          if failure == NoFailure {
            assert EnsureDefault(docs, nextId, failure)[|docs|].code == "en";
          }
        case Some(i) =>
          PromoteEnglishKeeps(docs, i, failure);
          if failure == NoFailure {
            assert EnsureDefault(docs, nextId, failure)[i].code == "en";
          }
      }
    }
  }

  /** The insert fails after the hook: no record, old or new, is default. */
  lemma AddEnglishInterrupted(docs: seq<LanguageDoc>, nextId: nat)
    requires forall j :: 0 <= j < |docs| ==> docs[j].id < nextId
    ensures forall k :: 0 <= k < |AddEnglish(docs, nextId, FailsAtSecondWrite)| ==>
      !AddEnglish(docs, nextId, FailsAtSecondWrite)[k].isDefault
  {
    EnglishInputValid(nextId);
  }

  /**
   * When English is missing or not default and the second write throws, the
   * swallowed error leaves the store with no default language at all.
   */
  lemma EnsureDefaultInterruptedLeavesNoDefault(docs: seq<LanguageDoc>, nextId: nat)
    requires forall j :: 0 <= j < |docs| ==> docs[j].id < nextId
    requires FindByCode(docs, "en").None? || !docs[FindByCode(docs, "en").value].isDefault
    ensures forall k :: 0 <= k < |EnsureDefault(docs, nextId, FailsAtSecondWrite)| ==>
      !EnsureDefault(docs, nextId, FailsAtSecondWrite)[k].isDefault
  {
    if FindByCode(docs, "en").None? {
      AddEnglishInterrupted(docs, nextId);
    }
  }
}
