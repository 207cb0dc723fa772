# A verified model of the multilingual app-review site's logic

This project models, in Dafny, the deterministic logic of a Next.js site. The site publishes reviews of video-chat applications in several languages, and its admin pages manage languages, posts, categories, SEO records and homepage FAQs. Everything around that logic is left to parameters: the database, `fetch`, the clock, JSON serialisation, random sampling and React rendering.

The model covers five groups.

- **TTL caching.**
  - `Cache` is the process-wide key/value cache. It is a class over a map. `now` is a parameter, and freshness is inclusive at ten minutes.
  - `ServerLanguages` holds the server's module-level language cache, whose five-minute window is strict. It also holds the repair that makes English the only default language.
  - `ClientLanguages` and `Seo` read through the shared cache.
- **Locale fallback.**
  - `Localize` resolves a per-locale text with `m[locale] || m['en'] || ''`. It also has the longer chains of the footer and the FAQ admin list, which add a "first stored value" tier.
  - `Records` models a JavaScript object as an insertion-ordered list of distinct keys.
  - `JsValues` models JavaScript values and their truthiness.
  - The locale fallback is used by the post card (`BlogPostCard`), the FAQ accordion (`FaqSection`), the footer (`Footer`), the random-posts API (`RandomPosts`), the alternatives section (`AlternativeApps`) and the pros/cons table (`ProsAndCons`, which also parses legacy arrays).
- **Paths and URLs.**
  - `Middleware` is the request router: skip, redirect, continue or rewrite.
  - `LocalePaths` and `Navigation` cover `getLocalizedPath` and the language switcher.
  - `Layout` builds the hreflang alternates.
  - `I18n` resolves the request locale and its messages.
  - `JsonLd` builds the schema.org article, FAQ and breadcrumb data.
- **String transforms.**
  - `Slugs` holds the two slug generators.
  - `BlogPostCard` strips tags and truncates text.
  - `AlternativeApps` removes `target` and `rel` from links.
  - `NewLanguagePage` flattens and unflattens nested translation trees.
- **List and state operations.**
  - `LanguagesAdmin` handles the admin language list.
  - `LanguageModel` holds the `Language` document and its single-default save hook.
  - `PostsApi` covers the posts API's migration, pagination and creation.
  - The forms are `HomepageFaqs` (a class state machine), `CategoryForm`, `PageSeoForm` and `LocaleForms`.

Code that updates state step by step is written as methods over classes, proved against specification functions. This covers the caches, the language store, the FAQ modal, the breadcrumb builder, the flatten and unflatten loops, the migration loop and the metadata loop. The rest is written as functions.

Notes on the code's behaviour that the model keeps:

- **Locale fallback.** Most readers fall back from the requested locale to 'en' only. `Localize.Resolve` therefore returns '' when neither the locale nor 'en' has text; `Localize.OnlyOtherLocaleStored` shows this for `{es: "Hola"}` read in 'tr'. Only the footer and the FAQ admin list add a third tier, the first stored value.
- **Empty legacy arrays.** An empty legacy pros/cons array is truthy, so it does not fall back to English (`ProsAndCons.EmptyLegacyArrayShadowsEnglish`).
- **Link cleanup.** `cleanLinksFromHtml` also rewrites tags that merely begin with `<a`, such as `<abbr>` and `<area>`, and turns `<A` into `<a`; `AlternativeApps.AnchorRewritten` states this for any such tag.
- **Language repair errors.** `ensureDefaultLanguagesExist` swallows every database error. The model takes the failing call as a parameter (`ServerLanguages.StoreFailure`); a failure between the two writes leaves no default language (`ServerLanguages.EnsureDefaultInterruptedLeavesNoDefault`).
- **Cache expiry.** The shared cache's expiry is inclusive: an entry exactly `duration` old is still a hit (`Cache.DefaultWindowInclusive`). The language cache's window is strict.

## Model

| member | source | states |
|---|---|---|
| Cache.TtlCache.constructor | src/lib/cache.ts:3 | the shared cache starts with no entries |
| Cache.TtlCache.Get | src/lib/cache.ts:6-12 | the answer is the stored value exactly when the key is present and now − timestamp ≤ duration, otherwise null; reading changes nothing, so stale entries are not evicted |
| Cache.TtlCache.Set | src/lib/cache.ts:14-19 | the key's entry becomes (now, data), replacing any earlier one; every other key keeps its entry |
| Cache.ReadAfterWrite | src/lib/cache.ts:6-19 | a value written at t is read back while now − t ≤ duration and is null afterwards |
| Cache.ReadUnwritten | src/lib/cache.ts:7-11 | a key never written is always a miss |
| Cache.ReadOtherKey | src/lib/cache.ts:14-19 | writing one key does not change what any other key reads |
| Cache.LastWriteWins | src/lib/cache.ts:14-19 | after two writes to one key, a fresh read gives the second value |
| Cache.DefaultWindowInclusive | src/lib/cache.ts:4-11 | the default duration is 600000 ms and the boundary is inclusive: exactly 600000 ms later is a hit, 600001 ms a miss |
| Cache.DurationMonotone | src/lib/cache.ts:6-11 | a hit under a shorter duration is the same hit under any longer one |
| Cache.ShorterDurationCanMiss | src/lib/cache.ts:4-11 | an entry 60 s old misses for a caller passing 30 s yet hits for a default-duration caller |
| ServerLanguages.OrEmpty | src/lib/languages.ts:71-73 | `x \|\| ''` on a string field: the value when present, '' otherwise |
| ServerLanguages.RowLocales | src/lib/languages.ts:70-74 | one `{locale, name, flag}` per loaded record, same order and length, each field defaulting to '' |
| ServerLanguages.LanguageCache.constructor | src/lib/languages.ts:11-12 | no cached list, timestamp 0 |
| ServerLanguages.LanguageCache.GetActiveLanguages | src/lib/languages.ts:56-92 | a cached list strictly younger than five minutes is returned as is; otherwise a successful load is projected, returned and cached with the `now` read at entry; a failed load returns the four-language fallback and leaves the cache untouched |
| ServerLanguages.LanguageCache.GetActiveLanguageCodes | src/lib/languages.ts:95-98 | the codes, in order, of what `getActiveLanguages` returns |
| ServerLanguages.LanguageCache.GetTwice | src/lib/languages.ts:59-80 | a second call within five minutes of a successful load returns the identical list, whatever the store does |
| ServerLanguages.WindowIsStrict | src/lib/languages.ts:13-62 | the window is 300000 ms and strict: one millisecond before it the list is cached, exactly at it the list is reloaded |
| ServerLanguages.EmptyListIsCached | src/lib/languages.ts:60-61 | an empty cached list still counts as cached |
| ServerLanguages.FailedLoadFallsBack | src/lib/languages.ts:81-91 | a failed load yields exactly en, fr, es, it |
| ServerLanguages.FirstDefault | src/lib/languages.ts:105 | `findOne({isDefault: true})`: the first default record, or none when no record is default |
| ServerLanguages.DefaultLanguageCode | src/lib/languages.ts:101-111 | the first default record's code when it is non-empty, otherwise 'en', and 'en' on a store error; never '' |
| ServerLanguages.EnsureDefaultLanguagesExist | src/lib/languages.ts:16-52 | the store afterwards is `EnsureDefault` of the store before and the failing call: with no failure, an active default English record is inserted by the save as written when there is none, or every default is cleared and English set when it is not default; a call that throws stops the repair where it is and the error is swallowed |
| ServerLanguages.AddEnglishKeeps | src/lib/languages.ts:23-34 | inserting English keeps unique codes and at most one default whatever fails; with no failure the new last record is the English default |
| ServerLanguages.PromoteEnglishKeeps | src/lib/languages.ts:37-41 | promoting English keeps unique codes and at most one default whatever fails; with no failure the English record is default |
| ServerLanguages.AddEnglishInterrupted | src/lib/languages.ts:23-34 | when the insert fails after the pre-save hook has run, no record is default |
| ServerLanguages.EnsureDefaultInterruptedLeavesNoDefault | src/lib/languages.ts:16-52 | when English is missing or not default and the second write throws, the caught error leaves the store with no default language |
| ServerLanguages.EnsureDefaultIdle | src/lib/languages.ts:37 | with English already default the repair changes nothing, whatever call fails |
| ServerLanguages.EnglishInputValid | src/lib/languages.ts:25-32 | the record created is valid under the schema, has code 'en' and is default |
| ServerLanguages.SetOnlyDefault | src/lib/languages.ts:39-40 | clearing all defaults then setting one id leaves exactly that record default and every code unchanged |
| ServerLanguages.EnsureDefaultEstablishes | src/lib/languages.ts:16-52 | from a store with unique ids and codes and at most one default, the repair keeps unique codes and at most one default whatever call fails, and when none fails it leaves an English record that is default |
| Locales.FallbackCodes | src/lib/languages.ts:85-90 | the fallback list's codes are exactly en, fr, es, it |
| ClientLanguages.EncodeLocales | src/lib/clientLanguages.ts:25-31 | the cached value is an array holding one `{locale, name, flag}` object per language, in order |
| ClientLanguages.DecodeEncode | src/lib/clientLanguages.ts:15-31 | a list written to the cache reads back as the same list |
| ClientLanguages.ActiveLocales | src/lib/clientLanguages.ts:25-29 | never longer than the input; membership through ActiveLocalesMembers, order through ActiveLocalesConcat |
| ClientLanguages.NoneActiveNoLocales | src/lib/clientLanguages.ts:25-29 | with no active record the list is empty |
| ClientLanguages.ActiveLocalesMembers | src/lib/clientLanguages.ts:25-29 | every entry is an active record projected as code→locale, name, flag, and every active record has its entry |
| ClientLanguages.ActiveLocalesConcat | src/lib/clientLanguages.ts:25-29 | the filter and projection keep the records' order: they distribute over concatenation |
| ClientLanguages.FetchActiveLanguages | src/lib/clientLanguages.ts:10-51 | a truthy fresh value under 'active-languages' is returned without fetching; otherwise a successful answer's active records are returned and cached; any failure returns the four-language list and writes nothing; the cached value stays a well-formed list |
| ClientLanguages.FetchActiveLanguageCodes | src/lib/clientLanguages.ts:63-66 | the codes, in order, of the list `fetchActiveLanguages` returns |
| ClientLanguages.FailedFetchFallsBack | src/lib/clientLanguages.ts:37-47 | a failed request or unsuccessful answer yields exactly en, fr, es, it and leaves the cache as it was |
| ClientLanguages.RefetchWithinWindow | src/lib/clientLanguages.ts:11-31 | within ten minutes of a successful fetch, a second fetch returns the same list and writes nothing, whatever the API answers |
| ClientLanguages.OtherKeyKeepsWellFormed | src/lib/clientLanguages.ts:11-15 | writes under any other key of the shared cache cannot spoil the cached language list |
| ClientLanguages.LanguageByCode | src/lib/clientLanguages.ts:54-56 | the first language whose code equals the argument; undefined exactly when none matches |
| ClientLanguages.DefaultLanguage | src/lib/clientLanguages.ts:59-61 | the 'en' entry if present, otherwise the first entry; undefined exactly for an empty list |
| Seo.SeoKey | src/lib/seo.ts:7 | the cache key is "page-seo-" followed by the page key |
| Seo.SeoKeyIsNotLanguagesKey | src/lib/seo.ts:7 | no page's key equals 'active-languages', so the shared cache's two users never collide |
| Seo.GetPageSeo | src/lib/seo.ts:6-27 | a truthy cached record is returned without touching the store; otherwise a found record is returned and cached under "page-seo-" + key; a missing record or a store error returns null |
| Seo.PageSeoKeepsLanguages | src/lib/seo.ts:21 | a read-through keeps the cached language list well formed |
| Seo.PageSeoMissWritesNothing | src/lib/seo.ts:16-26 | on a miss, a missing page or a store error returns null and caches nothing |
| Seo.PageSeoFoundIsCached | src/lib/seo.ts:8-22 | a found record is returned, and any read within the next ten minutes returns it from the cache whatever the store says |
| Seo.SelectJsonLd | src/lib/seo.ts:29-48 | falsy input gives no script; for an object, a truthy locale entry wins, then a truthy 'en' entry, then the whole object; arrays and primitives serialise whole; what is serialised is truthy |
| Seo.GenerateJsonLdScript | src/lib/seo.ts:29-48 | '' for a falsy input, otherwise the serialisation of the selected value |
| Seo.JsonLdWholeObject | src/lib/seo.ts:40-43 | an object with neither the locale nor 'en' set is serialised whole |
| Middleware.LocaleInPath | src/middleware.ts:30-32 | the first locale whose "/L/" prefix opens the path or equals it as "/L"; none exactly when no locale does |
| Middleware.Decide | src/middleware.ts:8-50 | skipped paths continue; a redirect happens exactly for an English-prefixed path and goes to the path without '/en' ('/' for '/en' itself); a rewrite happens exactly when no locale opens the path and goes to '/en' + path |
| Middleware.SkippedPassThrough | src/middleware.ts:13-22 | /admin, /api and /_next paths, paths containing /favicon.ico and paths ending in a listed static extension pass through |
| Middleware.EnglishPrefixRedirects | src/middleware.ts:37-39 | an English-prefixed path redirects to the path without its first three characters, or to '/' when that is empty; the target starts with '/' |
| Middleware.OtherLocaleContinues | src/middleware.ts:42 | a path opened by fr, es, it or tr passes through unchanged |
| Middleware.UnprefixedRewrites | src/middleware.ts:45-49 | a path with no locale segment is rewritten to '/en' + path |
| Middleware.RewriteTargetRedirectsBack | src/middleware.ts:37-49 | the '/en' form a rewrite produces redirects back to the original path |
| MiddlewareExamples.ExampleEnglishRoot | src/middleware.ts:38 | '/en' redirects to '/' |
| MiddlewareExamples.ExampleEnglishPost | src/middleware.ts:38 | '/en/apps/x.html' redirects to '/apps/x.html' |
| MiddlewareExamples.ExampleFrench | src/middleware.ts:42 | '/fr/apps/' passes through |
| MiddlewareExamples.ExampleUnprefixed | src/middleware.ts:48 | '/apps/' is rewritten to '/en/apps/' |
| MiddlewareExamples.ExampleAdmin | src/middleware.ts:14 | '/admin/posts' passes through |
| LocalePaths.RouteLocale | src/components/Navigation.tsx:13 | `params.locale \|\| 'en'`: the parameter when present and non-empty, else 'en'; never '' |
| LocalePaths.LocalizedPathPrefix | src/components/Navigation.tsx:35-40 | `getLocalizedPath(p)` is the locale URL prefix followed by p, and leaves p unchanged exactly for 'en' |
| Navigation.StripLocale | src/components/Navigation.tsx:51-59 | a path opened by no listed code's "/L/" and equal to no "/L" is returned unchanged |
| Navigation.StripLocalePrefix | src/components/Navigation.tsx:44-64 | the loop with its two `break`s, followed by the check at lines 62-64, computes the prefix strip: the first code whose "/L/" opens the path loses "/L", "/L" itself becomes "/", and lines 62-64 change nothing |
| Navigation.HandleLanguageChange | src/components/Navigation.tsx:42-78 | the new address is the stripped path for 'en' ('/' for '/'), and "/N" + the stripped path for another locale N, with '/' contributing '' |
| Navigation.SwitchThenStrip | src/components/Navigation.tsx:51-74 | for a listed non-English locale N, stripping the switched path gives back the stripped path, because a path opened by "/N" is stripped by N's own segment |
| Navigation.StripOwnSegment | src/components/Navigation.tsx:51-59 | a path "/N" + rest, with rest empty or starting with '/', is stripped to rest, or to '/' when rest is empty |
| Navigation.StripKeepsLeadingSlash | src/components/Navigation.tsx:51-59 | stripping a path that starts with '/' leaves a path that starts with '/' |
| Navigation.SwitchExamples | src/components/Navigation.tsx:55-74 | '/fr' switched to English gives '/'; '/' switched to 'es' gives '/es'; an unprefixed path switched to English is unchanged |
| Navigation.NavigationLinks | src/components/Navigation.tsx:13-40 | the apps link is '/apps/' for a missing, empty or 'en' route locale and "/L/apps/" otherwise |
| I18n.ActiveCodes | src/i18n.ts:16 | one code per active record, in order |
| I18n.DefaultCode | src/i18n.ts:17 | the code of the first default record when non-empty, else 'en'; never '' |
| I18n.GetLocales | src/i18n.ts:8-26 | on success the active codes and the default code; on a store error en, fr, es, it, tr with default 'en' |
| I18n.RequestConfigFor | src/i18n.ts:28-60 | notFound exactly when `locale ?? default` is not listed; otherwise the locale served is the requested code or the default |
| I18n.MessageFallbackOrder | src/i18n.ts:38-58 | the code's own messages; else the default's messages under the default locale; else {} under the requested code |
| I18n.EmptyLocaleIsNotDefaulted | src/i18n.ts:32-36 | `??` keeps '': an empty locale is looked up as is and is refused, while a missing one takes the default |
| I18n.NoActiveLanguagesRefusesAll | src/i18n.ts:14-36 | with no active language every request, the default included, is refused |
| LanguageModel.FromInput | src/models/Language.ts:15-47 | the stored document keeps the flag and id; `isActive` defaults to true and `isDefault` to false; the setters are stated by `FromInputSetters` |
| LanguageModel.FromInputSetters | src/models/Language.ts:17-35 | the stored code is the input code lower-cased and trimmed, and the stored name and native name are the input's trimmed |
| LanguageModel.Violations | src/models/Language.ts:17-39 | a document is valid exactly when its code has 2 to 5 characters and name, native name and flag are non-empty; only those four paths can fail |
| LanguageModel.ClearOtherDefaults | src/models/Language.ts:57-60 | every record other than the one with the given id loses `isDefault`; nothing else changes |
| LanguageModel.ClearAllDefaults | src/lib/languages.ts:39 | `updateMany({}, {isDefault: false})`: no record is default afterwards and nothing else changes |
| LanguageModel.SetDefaultById | src/lib/languages.ts:40 | the record with the id becomes default and nothing else changes |
| LanguageModel.FindByCode | src/lib/languages.ts:21 | `findOne({code})`: the first record with that code; none exactly when no record has it |
| LanguageModel.SaveNewAgreesWhenCodeFree | src/models/Language.ts:55-63 | the save as written and the corrected save agree whenever the code is free |
| LanguageModel.SaveNewAsWrittenLosesDefault | src/models/Language.ts:55-63 | as written, saving a second default 'en' into a store whose only default is 'en' is rejected by the unique index after the hook has cleared the existing default, leaving no default; the corrected save leaves the store unchanged |
| LanguageModel.SaveNewAsWritten | src/models/Language.ts:17-63 | `save()` as written: it succeeds exactly when the document is valid and its code is free, and then appends exactly that document; an invalid document changes nothing; a duplicate code is rejected after the hook, so existing records only lose default flags, and every record other than the new one loses it when the new one is default |
| LanguageModel.SaveInsertFails | src/models/Language.ts:55-63 | a save whose insert the database fails: rejected, the document not stored, and the hook's clearing of other defaults kept |
| LanguageModel.SaveNew | src/models/Language.ts:17-63 | the corrected save: it succeeds exactly when the document is valid and its code is free, and then appends exactly that document; a failed save leaves the collection unchanged |
| LanguageModel.FlagsClearedKeepInvariants | src/models/Language.ts:55-63 | a store whose records only lose default flags keeps unique codes and at most one default |
| LanguageModel.SaveNewAsWrittenKeepsInvariants | src/models/Language.ts:17-63 | the save as written, and the same save interrupted at the insert, keep unique codes and at most one default; a saved default document becomes the only default |
| LanguageModel.SaveNonDefaultKeepsOthers | src/models/Language.ts:55-63 | saving a non-default document changes no existing document |
| LanguageModel.SaveNewKeepsInvariants | src/models/Language.ts:20-63 | unique codes and at most one default are preserved, and a saved default document becomes the only default |
| LanguageModel.NormalizeCodeIdempotent | src/models/Language.ts:21-22 | applying the lowercase and trim setters twice is the same as once |
| LanguageModel.FromInputDefaults | src/models/Language.ts:40-47 | a document given no booleans is active and not default |
| LanguageModel.LanguageStore.Insert | src/models/Language.ts:55-63 | `new Language(input).save()`: the collection and the reply become those of the save as written, or of the save whose insert fails when the database fails it, and the next id advances |
| LanguageModel.LanguageStore.ClearDefaults | src/lib/languages.ts:39 | the collection becomes `ClearAllDefaults` of the old one |
| LanguageModel.LanguageStore.MakeDefault | src/lib/languages.ts:40 | the collection becomes `SetDefaultById` of the old one |
| NewLanguagePage.FlattenObject | src/app/admin/languages/new/page.tsx:134-151 | the loop over own properties, recursing into plain objects and merging with `Object.assign`, computes `Flatten`: child keys are `prefix.key` (bare at the top), and arrays, null and primitives become `String(value)` leaves |
| NewLanguagePage.UnflattenObject | src/app/admin/languages/new/page.tsx:154-174 | the loop over flat entries computes `Unflatten`: each key split on '.', missing or falsy steps replaced by `{}`, the value set at the last segment; stepping through a primitive is a TypeError |
| NewLanguagePage.Flatten | src/app/admin/languages/new/page.tsx:134-151 | the flat record never repeats a key, and an object with no properties flattens to {} |
| NewLanguagePage.FlatIntoDistinct | src/app/admin/languages/new/page.tsx:134-151 | each flattened key is assigned with `Put` or `Object.assign`, so no key occurs twice |
| NewLanguagePage.Unflatten | src/app/admin/languages/new/page.tsx:154-174 | {} for no entries; a success is an object with distinct keys holding the first path segment of every entry |
| NewLanguagePage.Run | src/app/admin/languages/new/page.tsx:181-412 | over any sequence of edits the flat translation table only gains keys and never repeats one |
| NewLanguagePage.FlattenLeaves | src/app/admin/languages/new/page.tsx:134-151 | for distinct, non-empty, dot-free property names, the flat form has one entry per leaf, in depth-first order, keyed by the leaf's dotted path; the keys are distinct and empty nested objects contribute nothing |
| NewLanguagePage.RoundTrip | src/app/admin/languages/new/page.tsx:134-174 | unflattening the flattened tree gives the tree back, for string leaves, no empty nested object, and property names that are non-empty, dot-free and not inherited from `Object.prototype` |
| NewLanguagePage.LeavesShape | src/app/admin/languages/new/page.tsx:137-146 | every leaf path is a non-empty path of valid names ending at a non-object, and leaf paths are pairwise distinct |
| NewLanguagePage.FlatIntoLeaves | src/app/admin/languages/new/page.tsx:137-148 | flattening from the i-th property on appends exactly the entries of the leaves below those properties |
| NewLanguagePage.JoinInjective | src/app/admin/languages/new/page.tsx:140 | distinct paths of dot-free names have distinct dotted keys |
| NewLanguagePage.InitialState | src/app/admin/languages/new/page.tsx:182-195 | the form starts active, not default, with the default translation tree, and the table shows that tree flattened |
| NewLanguagePage.ApplyPreset | src/app/admin/languages/new/page.tsx:198-206 | code, name, native name and flag come from the preset; active, default and translations are unchanged |
| NewLanguagePage.PresetLastWins | src/app/admin/languages/new/page.tsx:198-206 | a second preset leaves no trace of the first |
| NewLanguagePage.Step | src/app/admin/languages/new/page.tsx:292-412 | a preset replaces code, name, native name and flag; each field input sets exactly its own field of the form; a translation edit puts one key into the flat table and changes nothing else; no handler changes the form's translations |
| NewLanguagePage.PostedTranslationsNeverEdited | src/app/admin/languages/new/page.tsx:189-219 | after any sequence of edits, the posted translations are the ones the form started with: table edits are never folded back |
| PostsApi.KeptLines | src/app/api/admin/posts/route.ts:37 | never more items than given; membership through KeptLinesMembers, order and repetitions through KeptLinesOne and KeptLinesConcat |
| PostsApi.KeptLinesMembers | src/app/api/admin/posts/route.ts:37 | exactly the string items whose trim is non-empty are kept, untrimmed |
| PostsApi.KeptLinesOne | src/app/api/admin/posts/route.ts:37 | one item is kept exactly when it is a string with non-white-space content |
| PostsApi.KeptLinesConcat | src/app/api/admin/posts/route.ts:37 | the filter distributes over concatenation, so kept items stay in order and repeated items are kept each time |
| PostsApi.MigrateProsCons | src/app/api/admin/posts/route.ts:34-45 | a string passes through unchanged; an array becomes its kept items joined with newlines; any other value becomes '' |
| PostsApi.MigrateIdempotent | src/app/api/admin/posts/route.ts:34-45 | migration's output is a string, so migrating it again returns it unchanged |
| PostsApi.MigratedLines | src/app/api/admin/posts/route.ts:35-37 | for items without line breaks, splitting the migrated string on '\n' gives back exactly the kept items |
| PostsApi.MigratedLocales | src/app/api/admin/posts/route.ts:49-52 | one entry per locale, in order, each value migrated |
| PostsApi.MigrateLocaleMap | src/app/api/admin/posts/route.ts:49-52 | the `forEach` over `Object.entries` fills the new map with exactly `MigratedLocales` |
| PostsApi.MigrationKeepsLocales | src/app/api/admin/posts/route.ts:48-63 | the migrated map has the same locale keys, in the same order |
| PostsApi.MigrationIdempotent | src/app/api/admin/posts/route.ts:48-63 | migrating an already migrated map changes nothing |
| PostsApi.MigrateSide | src/app/api/admin/posts/route.ts:48-63 | a truthy `pros` or `cons` map is replaced by its migrated form, a falsy one left alone, and no other field changes |
| PostsApi.CleanAlternatives | src/app/api/admin/posts/route.ts:67-72 | succeeds exactly when no alternative is null or undefined, and then gives one `{name, description}` per alternative, same length and order |
| PostsApi.CleanAlternativeShape | src/app/api/admin/posts/route.ts:68-71 | a cleaned alternative has exactly the keys name and description, with the original values, and cleaning is idempotent |
| PostsApi.MigrateProsAndCons | src/app/api/admin/posts/route.ts:33-64 | a truthy object `prosAndCons` becomes the object with its `pros` then `cons` sides migrated; otherwise the post is unchanged; every other field keeps its value and the key order is kept |
| PostsApi.MigrateAlternatives | src/app/api/admin/posts/route.ts:67-72 | an array `alternatives` is replaced by its cleaned list, or the rewrite fails when an item is null or undefined; a non-array leaves the post unchanged; no other field changes |
| PostsApi.MigrateProsAndConsIdempotent | src/app/api/admin/posts/route.ts:33-64 | migrating the pros and cons of a migrated post changes nothing |
| PostsApi.CleanAlternativesIdempotent | src/app/api/admin/posts/route.ts:67-72 | cleaning cleaned alternatives gives them back |
| PostsApi.MigratePostIdempotent | src/app/api/admin/posts/route.ts:32-75 | a successfully migrated post is its own migration |
| PostsApi.MigratePost | src/app/api/admin/posts/route.ts:32-75 | `prosAndCons` as `MigrateProsAndCons` leaves it; `alternatives` replaced by the cleaned list when it is an array, failing when an item is null or undefined; every other field unchanged and the key order kept |
| PostsApi.MigratePostFails | src/app/api/admin/posts/route.ts:67-72 | the rewrite throws exactly when the alternatives are an array holding null or undefined |
| PostsApi.PageCount | src/app/api/admin/posts/route.ts:86 | `Math.ceil(total / limit)`: the fewest pages of `limit` posts that hold `total` |
| PostsApi.PostOnPage | src/app/api/admin/posts/route.ts:18-23 | with skip = (page − 1) × limit, the j-th post appears on exactly one page, j / limit + 1, which is within the page count |
| PostsApi.NumericParam | src/app/api/admin/posts/route.ts:13-14 | `parseInt(get(name) \|\| fallback)`: a non-empty parameter is parsed, otherwise the fallback |
| PostsApi.NumericParamReadsBack | src/app/api/admin/posts/route.ts:13-14 | a number written in decimal in the query is the number read |
| PostsApi.Skip | src/app/api/admin/posts/route.ts:18 | skip plus one page of posts is page × limit, and it is never negative from page 1 on |
| PostsApi.AsMap | src/app/api/admin/posts/route.ts:126-128 | `Object.entries` throws exactly on null and undefined |
| PostsApi.SlugFor | src/app/api/admin/posts/route.ts:106-113 | a truthy `body.slug` is used as is; otherwise the slug comes from `slugify(title.en \|\| '')` |
| PostsApi.MapFaqs | src/app/api/admin/posts/route.ts:152-157 | the map throws exactly when an item is null or undefined or its question or answer is; otherwise item i is the FAQ built from the i-th item's question and answer maps |
| PostsApi.MapAlternatives | src/app/api/admin/posts/route.ts:159-164 | the map throws exactly when an item is null or undefined or its name or description is; otherwise item i is the alternative built from the i-th item's name and description maps |
| PostsApi.CreatePost | src/app/api/admin/posts/route.ts:98-191 | a refused or failed request leaves the posts unchanged; a created post is appended, its slug was free, and it is the post data built from the body; and a free slug with a buildable body is created |
| PostsApi.HasItemsLength | src/app/api/admin/posts/route.ts:152-159 | an object passes `x && x.length > 0` exactly when its `length` property, converted to a number by the comparison, is above 0 |
| PostsApi.HasItemsNumericLength | src/app/api/admin/posts/route.ts:152-159 | an integer `length` passes the guard exactly when it is positive, whether stored as a number, as its decimal string or inside a one-element array |
| PostsApi.HasItemsOtherLengths | src/app/api/admin/posts/route.ts:152-159 | a `length` of `true` passes the guard; `null`, a plain object and a missing `length` do not |
| PostsApi.HasItemsTextLength | src/app/api/admin/posts/route.ts:152-159 | a `length` written as text that opens like no numeric literal (such as 'abc') reads as NaN and fails the guard |
| PostsApi.OptionalListsNeedArrays | src/app/api/admin/posts/route.ts:152-164 | a value that passes the guard without being an array has no `map`, so the conversion throws; otherwise the list is present exactly when the value is a non-empty array |
| PostsApi.ArrayLikeListFails | src/app/api/admin/posts/route.ts:152-189 | a `faqs` or `alternatives` value such as `{length: "1"}` that passes the guard without being an array makes the request answer 500 with no insert |
| PostsApi.BuildPostData | src/app/api/admin/posts/route.ts:124-175 | fails with a TypeError exactly when a required map or an optional part cannot be converted, which includes a `faqs` or `alternatives` value that passes `length > 0` without being an array; otherwise the slug, image URL and the converted title, content, description and optional parts are those of the body |
| PostsApi.DuplicateSlugRejected | src/app/api/admin/posts/route.ts:115-122 | a slug already in use gives 400 and no insert |
| PostsApi.CreatedPostDefaults | src/app/api/admin/posts/route.ts:124-164 | a created post has status 'draft', author and category null unless given, rating stars 5 and votes 0 where falsy, and FAQs and alternatives only when the lists are non-empty |
| PostsApi.PostStore.Create | src/app/api/admin/posts/route.ts:98-191 | the status and the new collection are those `CreatePost` gives |
| ProsAndCons.SideData | src/components/ProsAndCons.tsx:17-22 | a string side is used as is; a per-locale map gives `m[locale] \|\| m['en'] \|\| ''`; a null or undefined side throws |
| ProsAndCons.ArrayLines | src/components/ProsAndCons.tsx:29-31 | the filter succeeds exactly when no item is a truthy non-string (such an item has no `trim` and throws); membership through ArrayLinesMembers, order through ArrayLinesOne and ArrayLinesConcat |
| ProsAndCons.ArrayLinesMembers | src/components/ProsAndCons.tsx:29-31 | when the filter does not throw, it keeps exactly the string items that are non-blank after trim |
| ProsAndCons.ArrayLinesOne | src/components/ProsAndCons.tsx:29-31 | one item: a truthy non-string throws, and only a non-blank string is kept |
| ProsAndCons.ArrayLinesConcat | src/components/ProsAndCons.tsx:29-31 | when neither part throws, the lines kept from two runs of items follow each other in order |
| ProsAndCons.ArrayLinesKept | src/components/ProsAndCons.tsx:29-31 | when the display filter does not throw, it keeps exactly what the listing migration keeps |
| ProsAndCons.NonBlank | src/components/ProsAndCons.tsx:34 | never more lines than given; membership through NonBlankMembers, order through NonBlankOne and NonBlankConcat |
| ProsAndCons.NonBlankMembers | src/components/ProsAndCons.tsx:34 | the lines kept are exactly those with non-white-space content |
| ProsAndCons.NonBlankOne | src/components/ProsAndCons.tsx:34 | one line is kept exactly when it has non-white-space content |
| ProsAndCons.NonBlankConcat | src/components/ProsAndCons.tsx:34 | the filter distributes over concatenation, so kept lines stay in order |
| ProsAndCons.StringLines | src/components/ProsAndCons.tsx:32-35 | string data shows no item exactly when it is blank |
| ProsAndCons.StringLinesFromLines | src/components/ProsAndCons.tsx:32-35 | every shown item is a line of the text that is not blank, with its leading dash removed and trimmed |
| ProsAndCons.BlankLinesBlankText | src/components/ProsAndCons.tsx:32-35 | text whose newline-separated lines are all blank is itself blank |
| ProsAndCons.Items | src/components/ProsAndCons.tsx:28-43 | an array gives its filtered lines, a string its displayed lines, and any other value no items |
| ProsAndCons.NonBlankKeepsAll | src/components/ProsAndCons.tsx:34 | with no blank line, every line is kept, in order |
| ProsAndCons.CleanLines | src/components/ProsAndCons.tsx:34 | each kept line is cleaned independently, one output per line |
| ProsAndCons.Rows | src/components/ProsAndCons.tsx:51-75 | max(\|pros\|, \|cons\|) rows; row i holds item i of each side, or '' past its end |
| ProsAndCons.Render | src/components/ProsAndCons.tsx:46-75 | null exactly when both sides have no items; a rendered table is never empty; any failure is the TypeError the component throws on null data or a non-string truthy legacy item |
| ProsAndCons.RenderTable | src/components/ProsAndCons.tsx:46-75 | the component renders null exactly when both sides have no items, and otherwise the rows above |
| ProsAndCons.EmptyLegacyArrayShadowsEnglish | src/components/ProsAndCons.tsx:17-31 | an empty legacy array under the locale is truthy, so English is not consulted and the side shows nothing |
| ProsAndCons.EmptyStringFallsBack | src/components/ProsAndCons.tsx:17-19 | an empty string under the locale falls back to the English data |
| ProsAndCons.CleanLineDash | src/components/ProsAndCons.tsx:34 | only a dash in the first column is removed, with the spaces after it, before trimming; "-" yields '' |
| ProsAndCons.ArrayMatchesMigration | src/components/ProsAndCons.tsx:31 | legacy string arrays display the same items the listing's migration keeps |
| ProsAndCons.MigratedDataDisplaysKeptLines | src/components/ProsAndCons.tsx:32-34 | the migrated string displays the kept lines, each with its dash removed and trimmed |
| JsonLd.ArticleSchema | src/components/JsonLdScript.tsx:10-48 | headline and description are the text in the locale (a string as is, else `m[locale] \|\| m['en'] \|\| ''`); no image when the URL is empty; the page URL is the locale-prefixed post URL |
| JsonLd.FaqSchema | src/components/JsonLdScript.tsx:51-62 | null exactly when there are no FAQs; otherwise one Question per FAQ, in order, with question and answer in the locale |
| JsonLd.Breadcrumbs | src/components/JsonLdScript.tsx:65-101 | three crumbs without a named category and four with one, at positions 1, 2, … in order |
| JsonLd.BuildBreadcrumbs | src/components/JsonLdScript.tsx:65-101 | the pushes build Home, Apps, the category when it has a name, then the post, and item i has position i + 1, consecutive from 1 |
| JsonLd.BreadcrumbShape | src/components/JsonLdScript.tsx:65-101 | three items without a named category, four with one; the first is Home at the base URL, the second Apps at the base URL plus "/apps/", the last is the post named by its title |
| JsonLd.CategoryCrumbLink | src/components/JsonLdScript.tsx:81-92 | the category crumb is named by the stored slug if any, else the generated one, and always links to the generated slug, which holds only [a-z0-9-] |
| JsonLd.UrlsCarryLocalePrefix | src/components/JsonLdScript.tsx:46-100 | every URL starts with the site URL plus '' for 'en' or "/" + locale otherwise |
| Slugs.DropRun | src/components/JsonLdScript.tsx:18-19 | skipping the leading run of a character class returns a suffix, strictly shorter when the first character is in the class, that does not start with one |
| Slugs.CollapseRuns | src/components/JsonLdScript.tsx:18-19 | a global `/[class]+/` replacement: the result is empty only for empty input, and its first character is the replacement exactly when the input opens with the class; CollapseWords gives the whole result |
| Slugs.CollapseRunsChars | src/components/JsonLdScript.tsx:18-19 | every output character is the replacement or a character of the input outside the class |
| Slugs.WordsShape | src/app/admin/categories/new/page.tsx:64-66 | the words of a text, its maximal runs outside the class, are non-empty and hold no class character |
| Slugs.CollapseWords | src/app/admin/categories/new/page.tsx:64-66 | the replacement of runs is the words joined by one replacement each, with one more in front when the text opens with the class and one at the end when it closes with the class after a word |
| Slugs.CollapseKeepsOthers | src/components/JsonLdScript.tsx:18-19 | when the replacement is in the class, the characters outside the class are the same before and after, in order |
| Slugs.CollapseNoAdjacent | src/components/JsonLdScript.tsx:18-19 | after a run replacement no two neighbouring characters belong to the class |
| Slugs.CollapseFixed | src/components/JsonLdScript.tsx:18-19 | a string whose class characters are all the replacement, never two in a row, is left unchanged |
| Slugs.CollapseIdempotent | src/components/JsonLdScript.tsx:18-19 | replacing runs twice is replacing them once when the replacement is itself in the class |
| Slugs.SlugCharNotSpace | src/components/JsonLdScript.tsx:17-18 | no character of `[a-z0-9-]` is white space, so the space stage finds nothing in a slug |
| Slugs.KeepSlugText | src/components/JsonLdScript.tsx:17 | only letters a-z, digits, white space and '-' survive; text made of slug characters is unchanged |
| Slugs.CreateSlugCore | src/components/JsonLdScript.tsx:14-21 | the slug before `trim` holds only `[a-z0-9-]` and never two hyphens in a row |
| Slugs.CreateSlug | src/components/JsonLdScript.tsx:14-21 | the slug holds only `[a-z0-9-]` and never two hyphens in a row |
| Slugs.CreateSlugShape | src/components/JsonLdScript.tsx:14-21 | the final `trim` changes nothing; `createSlug` gives `[a-z0-9-]` with single hyphens, and is idempotent |
| Slugs.StripEdgeHyphens | src/app/admin/categories/new/page.tsx:67 | removing `^-` and `-$` never lengthens the text |
| Slugs.StripEdgeShape | src/app/admin/categories/new/page.tsx:64-67 | on a collapsed slug, removing the edge hyphens keeps `[a-z0-9-]` with single separators and leaves no hyphen at either end |
| Slugs.CategorySlug | src/app/admin/categories/new/page.tsx:64-67 | the generated slug holds only `[a-z0-9-]`, hyphens alone between alphanumerics and none at either end, and its letters and digits are those of the lower-cased name, in order; CategorySlugJoinsWords places the hyphens |
| Slugs.CategorySlugJoinsWords | src/app/admin/categories/new/page.tsx:64-67 | the slug is the lower-cased name's words (maximal runs of `[a-z0-9]`) joined by single hyphens: each run of other characters between two words becomes one '-', and runs at either end vanish |
| Slugs.CategorySlugTwoWords | src/app/admin/categories/new/page.tsx:64-67 | two letters or digits around one separator, as in "a b", give the two with a hyphen between them ("a-b") |
| Slugs.StripEdgeKeepsAlnums | src/app/admin/categories/new/page.tsx:67 | removing the edge hyphens removes no letter or digit |
| Slugs.CategorySlugFixed | src/app/admin/categories/new/page.tsx:64-67 | a string already in that form is its own slug |
| Slugs.CategorySlugIdempotent | src/app/admin/categories/new/page.tsx:64-67 | generating a slug from a generated slug returns it unchanged |
| LocaleForms.EmptyLocaleMapSpec | src/app/admin/categories/new/page.tsx:28-31 | `Object.fromEntries(languages.map(l => [l, '']))` has exactly the loaded locales as keys, each once, each mapped to '' |
| LocaleForms.SetLocale | src/app/admin/categories/new/page.tsx:51-59 | `{ ...m, [locale]: value }` maps the locale to the value and every other key as before |
| LocaleForms.SetLocaleLastWins | src/app/admin/categories/new/page.tsx:51-59 | writing a locale twice keeps the last text; writing back the stored text changes nothing |
| CategoryForm.LoadLanguages | src/app/admin/categories/new/page.tsx:22-42 | on success the locales are the fetched codes and name and description hold '' for exactly those codes; on failure the locales are en, fr, es, it and the form is unchanged; the slug is never touched |
| CategoryForm.SetSlug | src/app/admin/categories/new/page.tsx:44-49 | only the slug changes |
| CategoryForm.LocaleChange | src/app/admin/categories/new/page.tsx:51-59 | only the addressed locale of the addressed field changes |
| CategoryForm.SlugSource | src/app/admin/categories/new/page.tsx:62 | the first non-empty of the en, fr, es and it names; empty exactly when all four are |
| CategoryForm.GenerateSlugFromName | src/app/admin/categories/new/page.tsx:61-70 | no name in the four locales leaves the form unchanged; otherwise only the slug changes, to the category slug of that name |
| CategoryForm.RegenerateFromSlug | src/app/admin/categories/new/page.tsx:51-70 | entering the generated slug as the English name and generating again gives the same slug |
| PageSeoForm.LoadLanguages | src/app/admin/page-seo/new/page.tsx:55-76 | on success title, description and keywords hold '' for exactly the fetched codes; on failure the locales fall back to en, fr, es, it and the form is unchanged |
| PageSeoForm.LocaleChange | src/app/admin/page-seo/new/page.tsx:85-93 | only the addressed locale of the addressed field changes; the other fields are kept |
| PageSeoForm.Template | src/app/admin/page-seo/new/page.tsx:8-35 | a template exists exactly for homepage, contact and privacy, each a schema.org object |
| PageSeoForm.LoadJsonLdTemplate | src/app/admin/page-seo/new/page.tsx:95-103 | a known page key puts the serialised template in the JSON-LD box; any other key leaves the form unchanged |
| PageSeoForm.SelectPageKey | src/app/admin/page-seo/new/page.tsx:169-172 | the select sets the page key, then puts the key's template in the JSON-LD box when there is one and otherwise keeps the box; the other fields are kept |
| PageSeoForm.TermsKeepsHomepageJsonLd | src/app/admin/page-seo/new/page.tsx:95-103 | choosing 'terms' after 'homepage' leaves page key 'terms' with the homepage JSON-LD in the box |
| PageSeoForm.SubmitPayload | src/app/admin/page-seo/new/page.tsx:110-113 | an empty box sends null; otherwise the submit succeeds exactly when the text parses, and sends the parsed value; every other field is sent as entered |
| PageSeoForm.TemplateSubmitted | src/app/admin/page-seo/new/page.tsx:95-113 | loading a template and submitting sends the template itself when parsing inverts serialising |
| HomepageFaqs.FormOf | src/app/admin/homepage-faqs/page.tsx:103-108 | the edit form copies the FAQ's question, answer, order and active flag |
| HomepageFaqs.ListLabel | src/app/admin/homepage-faqs/page.tsx:188 | the English question, else the first stored one, else 'No question'; never empty, and either the default or a stored text |
| HomepageFaqs.AnswerLabel | src/app/admin/homepage-faqs/page.tsx:191 | the English answer, else the first stored one, else 'No answer'; never empty, and either the default or a stored text |
| HomepageFaqs.OrderInput | src/app/admin/homepage-faqs/page.tsx:252 | `parseInt(value) \|\| 0`: the parsed number, or 0 when the input does not parse |
| HomepageFaqs.OrderInputRoundTrip | src/app/admin/homepage-faqs/page.tsx:252 | a number typed in decimal is read back as itself |
| HomepageFaqs.FaqAdminPage.constructor | src/app/admin/homepage-faqs/page.tsx:12-23 | an empty list, no error, the modal closed, nothing being edited, the empty form with order 0, active |
| HomepageFaqs.FaqAdminPage.FetchFaqs | src/app/admin/homepage-faqs/page.tsx:29-44 | a successful reply replaces the list; an unsuccessful one or a thrown fetch keeps it and sets the matching error; the modal and form are untouched |
| HomepageFaqs.FaqAdminPage.OpenModal | src/app/admin/homepage-faqs/page.tsx:100-120 | the modal opens with the error cleared; editing copies the FAQ into the form, adding starts from the empty form |
| HomepageFaqs.FaqAdminPage.CloseModal | src/app/admin/homepage-faqs/page.tsx:122-132 | closed, nothing being edited, the form reset, no error; the list kept |
| HomepageFaqs.FaqAdminPage.UpdateFormField | src/app/admin/homepage-faqs/page.tsx:134-142 | only the given language of the given field changes |
| HomepageFaqs.FaqAdminPage.SetOrder | src/app/admin/homepage-faqs/page.tsx:252 | only the form's order changes, to the parsed input or 0 |
| HomepageFaqs.FaqAdminPage.SetActive | src/app/admin/homepage-faqs/page.tsx:263 | only the form's active flag changes, to whether 'true' was chosen |
| HomepageFaqs.FaqAdminPage.SubmitRequest | src/app/admin/homepage-faqs/page.tsx:51-63 | the body is the form; PUT to the FAQ's own URL exactly when editing, POST to the collection otherwise |
| HomepageFaqs.FaqAdminPage.Submit | src/app/admin/homepage-faqs/page.tsx:46-78 | success reloads the list and closes the modal, clearing the error even when the reload failed; failure keeps the modal and form and shows the server's error or the default |
| HomepageFaqs.FaqAdminPage.Delete | src/app/admin/homepage-faqs/page.tsx:80-98 | nothing without confirmation; success reloads the list, and a failed reload leaves the list and shows "Failed to fetch FAQs" or "Error fetching FAQs"; failure keeps the list and shows the server's error or the default; the modal is untouched |
| HomepageFaqs.EditUnchangedSendsSameFaq | src/app/admin/homepage-faqs/page.tsx:51-63 | opening a FAQ and submitting unchanged sends a PUT of that FAQ's own fields to its URL |
| Localize.Resolve | src/components/BlogPostCard.tsx:26 | `m[locale] \|\| m['en'] \|\| ''`: the locale's text when non-empty, otherwise the English text (or '') |
| Localize.TextIn | src/components/JsonLdScript.tsx:10 | a plain string is used as is; a per-locale record is resolved |
| Localize.FirstValue | src/components/Footer.tsx:63 | `Object.values(m)[0]`: the first stored value, '' when there is none |
| Localize.ResolveOrFirst | src/components/Footer.tsx:61-63 | the resolved text when non-empty, else the first stored value when non-empty, else the given default |
| Localize.EnglishOrFirst | src/app/admin/homepage-faqs/page.tsx:188 | the English text when non-empty, else the first stored value when non-empty, else the given default |
| Localize.LookupInValues | src/components/Footer.tsx:63 | a value found under a key is one of the record's values |
| Localize.ResolveIsStoredValue | src/components/BlogPostCard.tsx:26 | the resolved text is a stored value or ''; it is '' exactly when both the locale and 'en' are missing or empty |
| Localize.ResolveKnownLocale | src/components/BlogPostCard.tsx:26 | a non-empty stored translation for the locale is returned unchanged |
| Localize.EmptyTranslationFallsBack | src/components/BlogPostCard.tsx:26 | a translation stored as '' is skipped like a missing one: the English text is used |
| Localize.OnlyOtherLocaleStored | src/components/Footer.tsx:61-63 | with only a third locale stored, the two-tier reader gives '' and the footer's reader gives that locale's text |
| FaqSection.Toggled | src/components/FAQSection.tsx:21-29 | the clicked index flips membership; every other index keeps it |
| FaqSection.ToggleTwice | src/components/FAQSection.tsx:21-29 | clicking the same item twice restores the open set |
| FaqSection.TogglesCommute | src/components/FAQSection.tsx:21-29 | clicks on two items give the same open set in either order |
| FaqSection.Accordion.constructor | src/components/FAQSection.tsx:18 | only item 0 starts open |
| FaqSection.Accordion.ToggleItem | src/components/FAQSection.tsx:21-29 | the new open set is the old one with the clicked index toggled |
| FaqSection.Render | src/components/FAQSection.tsx:31-66 | null exactly for an empty list; otherwise one item per FAQ with its question in the locale, and its answer exactly when its index is open |
| FaqSection.InitiallyFirstOpen | src/components/FAQSection.tsx:18-66 | before any click only the first answer is shown |
| FaqSection.ClickShowsOrHidesOne | src/components/FAQSection.tsx:21-66 | a click shows or hides the clicked item's answer and changes no other item |
| BlogPostCard.StripTags | src/components/BlogPostCard.tsx:31 | `replace(/<[^>]*>/g, '')`: no longer than the input, only its characters, and no `<` left with a `>` after it |
| BlogPostCard.StripPlainPrefix | src/components/BlogPostCard.tsx:31 | text without `<` before the rest is copied unchanged |
| BlogPostCard.StripMatch | src/components/BlogPostCard.tsx:31 | a `<` followed by characters other than `>` and a `>` is removed whole, with the text after it stripped in turn |
| BlogPostCard.StripUnmatched | src/components/BlogPostCard.tsx:31 | a `<` with no `>` after it is kept, and stripping continues after it |
| BlogPostCard.TagFreeUnchanged | src/components/BlogPostCard.tsx:31 | text without a `<...>` span is unchanged |
| BlogPostCard.StripIdempotent | src/components/BlogPostCard.tsx:31 | stripping twice is stripping once |
| BlogPostCard.Cut | src/components/BlogPostCard.tsx:35 | what precedes the "..." is the first n characters with the white space at both ends removed (a window of them bounded by white-space runs, starting and ending with a non-space); at most n + 3 long; no tag |
| JsStrings.TrimIsTrimOf | src/components/BlogPostCard.tsx:35 | `trim()` returns exactly the text between the white-space runs at the two ends, which starts and ends with a non-space |
| BlogPostCard.TruncateContent | src/components/BlogPostCard.tsx:30-36 | the stripped text when it fits the length; otherwise the first length characters of the stripped text (none for a negative length), trimmed, then "..."; never a tag |
| BlogPostCard.ShortTextShownWhole | src/components/BlogPostCard.tsx:30-34 | a tag-free text within the length is shown unchanged |
| BlogPostCard.ContentIn | src/components/BlogPostCard.tsx:28 | no content gives ''; otherwise the content resolved to the locale |
| BlogPostCard.RenderCard | src/components/BlogPostCard.tsx:17-95 | an image exactly when the URL is non-empty; the title in the prop locale; the link in the route locale; the preview is `truncateContent` of the locale's content at 80 characters, so tag-free and at most 83 long |
| BlogPostCard.CardLinkFollowsRoute | src/components/BlogPostCard.tsx:17-24 | the link ignores the locale prop, and without a route locale it is the bare English post path |
| Footer.PostTitle | src/components/Footer.tsx:61-63 | a string title as is; otherwise the four-tier fallback, which is never empty and is 'Untitled' or a stored title |
| Footer.Render | src/components/Footer.tsx:22-77 | the three about links in the route locale; the other-apps column is absent exactly on a post page, shows the empty message exactly for no posts, and otherwise one link per post in order |
| Footer.PostLinksFollowLocale | src/components/Footer.tsx:27-32 | a post link is "/apps/" + slug + ".html" for English and carries "/" + locale before it otherwise |
| Footer.EmptyTitleIsUntitled | src/components/Footer.tsx:61-63 | a per-locale title with only empty texts reads 'Untitled' |
| LanguagesAdmin.Toggled | src/app/admin/languages/page.tsx:42-46 | same length; the record with the id gets the negated flag, every other record is unchanged |
| LanguagesAdmin.WithDefault | src/app/admin/languages/page.tsx:69-72 | same length; each record is the default exactly when its id is the chosen one, and is otherwise unchanged |
| LanguagesAdmin.Without | src/app/admin/languages/page.tsx:95 | the records kept are exactly those with another id |
| LanguagesAdmin.ToggleActive | src/app/admin/languages/page.tsx:29-54 | the list changes, by the toggle, only when the server reports success |
| LanguagesAdmin.SetDefault | src/app/admin/languages/page.tsx:56-80 | the list changes, by making the id the only default, only when the server reports success |
| LanguagesAdmin.Delete | src/app/admin/languages/page.tsx:82-104 | the record is removed only when the deletion is confirmed and the server reports success |
| LanguagesAdmin.ToggleFlipsAndRestores | src/app/admin/languages/page.tsx:42-46 | with unique ids, toggling flips that record's flag only, and toggling again restores the list |
| LanguagesAdmin.SetDefaultExactlyOne | src/app/admin/languages/page.tsx:69-72 | with unique ids, exactly the chosen record is the default afterwards |
| LanguagesAdmin.WithoutConcat | src/app/admin/languages/page.tsx:95 | the filter keeps the order of the remaining records: it distributes over concatenation |
| LanguagesAdmin.WithoutAbsent | src/app/admin/languages/page.tsx:95 | deleting an id no record has changes nothing |
| LanguagesAdmin.DeleteKeepsDefault | src/app/admin/languages/page.tsx:213-215 | Delete is offered only for non-default records, so with unique ids a deletion never removes the default |
| RandomPosts.ParamOr | src/app/api/random-blog-posts/route.ts:13-14 | `searchParams.get(name) \|\| fallback`: the parameter when present and non-empty, the fallback otherwise |
| RandomPosts.SampleSize | src/app/api/random-blog-posts/route.ts:15 | `parseInt` of the `limit` parameter, or of '6' when it is absent or empty |
| RandomPosts.NumberOr | src/app/api/random-blog-posts/route.ts:49-50 | a present non-zero number is kept; a missing or zero one gives the fallback |
| RandomPosts.RatingOf | src/app/api/random-blog-posts/route.ts:48-54 | no rating gives 4 stars and 2549 votes; otherwise each truthy stored number, defaulting each; neither is ever 0 |
| RandomPosts.Project | src/app/api/random-blog-posts/route.ts:42-55 | id, slug and image copied; title and description resolved to the locale; the rating defaulted |
| RandomPosts.ProjectAll | src/app/api/random-blog-posts/route.ts:42-55 | one projected post per sampled post, in order |
| RandomPosts.Get | src/app/api/random-blog-posts/route.ts:7-77 | success exactly when the aggregation succeeds, with the projected sample and the cache header; otherwise the 500 reply |
| RandomPosts.UnparsableLimitAnswersEmpty | src/app/api/random-blog-posts/route.ts:15-29 | a `limit` that parses to NaN asks `$sample` for no posts, so the reply succeeds with an empty list |
| RandomPosts.ReturnedPostsEligible | src/app/api/random-blog-posts/route.ts:17-55 | the reply succeeds with no more than the parsed `limit` of posts (none for NaN), each the projection of its sampled post in the locale; that the sampled posts are eligible (published, not the current one, with a title, description or content in the locale) is what the sampling contract `ValidSample` assumes of `$sample`, not a consequence |
| RandomPosts.DescriptionOnlyShowsEnglishTitle | src/app/api/random-blog-posts/route.ts:22-44 | a post with only a description in the locale is eligible yet shows the English title |
| RandomPosts.ZeroRatingShownAsDefault | src/app/api/random-blog-posts/route.ts:49-50 | a stored 0 votes shows 2549, a stored 0 stars shows 4 |
| RandomPosts.DefaultLimitIsSix | src/app/api/random-blog-posts/route.ts:15 | without a `limit` six posts are asked for |
| Layout.LocaleEntriesSpec | src/app/layout.tsx:13-20 | after the `forEach`, each active locale maps to its site URL, once, and no other key is present |
| Layout.AlternatesSpec | src/app/layout.tsx:13-23 | the keys are the distinct active locales plus `x-default`; `x-default` is the bare site URL; each other locale maps to its site URL |
| Layout.EnglishIsBare | src/app/layout.tsx:15-18 | English maps to the bare site URL, any other locale L to the site URL + "/" + L |
| Layout.GenerateMetadata | src/app/layout.tsx:9-30 | the loop over the active languages, then the `x-default` entry, builds exactly the alternates object |
| AlternativeApps.AttrMatch | src/components/AlternativeApps.tsx:24-25 | a match of `\s*NAME\s*=\s*["'][^"']*["']` (any case) at the start is longer than the name and within the text |
| AlternativeApps.RemoveAttr | src/components/AlternativeApps.tsx:24-25 | the global removal never lengthens the text, and leaves it unchanged exactly when no position starts a match |
| AlternativeApps.CleanAttributes | src/components/AlternativeApps.tsx:23-25 | the two chained removals never lengthen the attributes, leave them unchanged when neither attribute occurs, and change the length whenever a `target` attribute occurs |
| AlternativeApps.NoFirstLetterNoAttr | src/components/AlternativeApps.tsx:24-25 | text that never contains the attribute name's first letter holds no such attribute |
| AlternativeApps.SinglePassLeavesRel | src/components/AlternativeApps.tsx:23-25 | the two chained removals, run once, turn ` rerel="x"l="y"` into ` rel="y"`, which is again a `rel` attribute |
| AlternativeApps.ExampleMatches | src/components/AlternativeApps.tsx:25 | in that example the `rel` pattern matches first inside the attribute name `rerel`, at its `rel` suffix, because `\s*` also matches no space; nothing matches after it |
| AlternativeApps.CleanAttributesFixed | src/components/AlternativeApps.tsx:22-25 | the removals repeated until nothing is found leave no `target` or `rel` attribute, never lengthen the text, and change nothing on clean text |
| AlternativeApps.FixedAgreesWithSinglePass | src/components/AlternativeApps.tsx:23-25 | where one pass already leaves no attribute, the repeated cleanup gives the same text |
| AlternativeApps.CleanLinksWith | src/components/AlternativeApps.tsx:19-29 | HTML with no `<` is returned unchanged |
| AlternativeApps.OtherTagCopied | src/components/AlternativeApps.tsx:19-29 | a `<` that does not open an anchor is copied and the scan resumes right after it |
| AlternativeApps.CleanLinksShrinks | src/components/AlternativeApps.tsx:19-29 | a cleanup that never lengthens attributes never lengthens the HTML |
| AlternativeApps.CleanLinksAsWritten | src/components/AlternativeApps.tsx:19-29 | `cleanLinksFromHtml`: HTML with no `<` unchanged, and the result never longer than the input |
| AlternativeApps.CleanLinks | src/components/AlternativeApps.tsx:19-29 | the corrected cleanup: HTML with no `<` unchanged, and the result never longer than the input |
| AlternativeApps.TextCopied | src/components/AlternativeApps.tsx:19-20 | text before the first `<` is copied unchanged |
| AlternativeApps.AnchorRewritten | src/components/AlternativeApps.tsx:19-29 | an opening tag `<a` or `<A` up to its first `>` becomes `<a` + the cleaned attributes + `>`, and the rest is processed after it |
| AlternativeApps.CleanAnchorHasNoTargetOrRel | src/components/AlternativeApps.tsx:19-29 | with the repeated cleanup, a rewritten link keeps no `target` or `rel` attribute |
| AlternativeApps.GeneralDescription | src/components/AlternativeApps.tsx:13-15 | no description gives ''; otherwise the description as a string or resolved to the locale |
| AlternativeApps.Render | src/components/AlternativeApps.tsx:19-58 | the general description exactly when non-empty, as stored; one card per alternative, in order, with its name and its description cleaned by `cleanLinksFromHtml` as written |
| AlternativeApps.RenderCorrected | src/components/AlternativeApps.tsx:19-58 | the same section with the repeated cleanup: the same general description and names, each description cleaned by `CleanLinks` |
| AlternativeApps.SiteCardKeepsRel | src/components/AlternativeApps.tsx:19-58 | a card whose description is `<a rerel="x"l="y">` is shown as `<a rel="y">`, which still carries `rel`; the corrected page shows it with no `rel` |
| AlternativeApps.GeneralDescriptionNotCleaned | src/components/AlternativeApps.tsx:36-43 | the general description is shown without link cleanup |

## Left out

- Network, database and clock. `fetch` replies, database results, `Date.now()` and, where the code handles them, database errors are parameters. Mongoose queries are replaced by sequences of records, and `$sample` is a parameter constrained by `RandomPosts.ValidSample`.
- Concurrency. The asynchronous interleaving of cache reads and writes is not modelled. Neither is the duplicate-key race between two saves of the same language code, where MongoDB error 11000 is resolved by whichever insert comes first, nor the same check-then-insert window on a post's slug in the posts API (src/app/api/admin/posts/route.ts:115-122), which `PostsApi.DuplicateSlugRejected` treats as sequential.
- Serialisation. `JSON.stringify` and `JSON.parse` are parameters. The JSON round trips that drop `undefined` fields are not modelled: the one in the random-posts route, `JSON.parse(JSON.stringify(migratedPosts))` in the posts listing (src/app/api/admin/posts/route.ts:81), and `JSON.parse(JSON.stringify(pageSEO))` before a page's SEO record is cached (src/lib/seo.ts:20).
- Text encoding. Strings are sequences of characters, so the UTF-16 code-unit lengths that `substring` and `.length` use are not modelled.
- Case mapping. `toLowerCase` is ASCII only; every other letter counts as a character outside `[a-z0-9]`. This matters for Turkish, one of the site's languages: in JavaScript 'İ'.toLowerCase() is "i\u0307", so the category slug of "İzmir" is "i-zmir" in the source but "zmir" in the model.
- Object key order. JavaScript objects are insertion-ordered records. The rule that places integer-like keys first in `for...in` and `Object.entries` is not modelled.
- Numbers. Numbers are integers. NaN and floating point are not modelled, except that an unparsable `limit` (NaN) is a sample size of 0, and that the `length > 0` guards of the posts API convert the `length` the way a JavaScript comparison does (`JsValues.NumberSign`), NaN included.
- JsValues.NumberSign: a decimal string reads as positive whenever one of its digits is not 0, so the underflow that makes JavaScript read '1e-400' as 0 is not modelled.
- Pagination with a `limit` of zero or less is not modelled. `PostsApi.PageCount` and `PostsApi.PostOnPage` require a positive limit.
- RandomPosts.ValidSample: takes a NaN size as 0 and a negative size as a database error, following MongoDB's conversion of the `$sample` size; any other database behaviour for these sizes is not modelled.
- A locale containing '.' is not modelled: in the random-posts query it would become a nested path.
- Data constants. `DEFAULT_TRANSLATIONS` and the language presets of the new-language page are not reproduced; the model takes them as parameters.
- `PageSeoForm.Template` does not model inherited object keys: a page key such as `toString` finds a value in `defaultJsonLdTemplates`.
- NewLanguagePage.Unflatten and NewLanguagePage.UnflattenObject treat every path segment as an own property. In the source, `!current[keys[i]]` also sees members inherited from `Object.prototype` (`constructor`, `toString`, `__proto__` and the others listed in `ObjectPrototypeNames`), so a key such as `constructor.a` writes onto a built-in object and leaves the result without it, and a `__proto__` segment reaches the shared prototype. The model builds a nested object instead. `NewLanguagePage.RoundTrip` excludes these names through `ValidKey`.
- NewLanguagePage.UnflattenObject: the walk down a `current` pointer that mutates shared nested objects is modelled on tree values, so aliasing between nested objects is not captured.
- PostsApi.MigrateLocaleMap: the GET handler overwrites `post.prosAndCons` and `post.alternatives` in place; the model builds the new post as a value.
- Errors. `null` or `undefined` reaching a property access is modelled as a failed result (`PostsApi.AsMap`, `PostsApi.MigratePostFails`), not as a thrown `TypeError` with a stack.
- Schema behaviour. Mongoose validation is modelled only for the `Language` schema (code length, required fields, the lowercase and trim setters). Type casting and the other schemas are not modelled.
- The sort order in `getActiveLanguages` is not modelled; the loaded rows are taken in the order the store returns them.
- The post card's date, author and rating display are not modelled. Its `description` is computed but never shown, so it is not modelled either.
- Rendering. Translation strings (`useTranslations`), CSS classes, icons and the markup of every component are not modelled; the views are datatypes holding what is shown.
- Loading spinners and the `loading` flags of the admin pages are not modelled.
- The `alert` and `confirm` dialogs are not modelled; confirmation is a parameter.
- Routing after a successful submit (`router.push`) is not modelled.
- Writing translation files, uploads, authentication, seed scripts and `next.config.js` are not modelled.

## Findings

| source | as written | input that shows it | evidently intended | confidence | as-written member | corrected member |
|---|---|---|---|---|---|---|
| src/models/Language.ts:55-63 | the pre-save hook clears `isDefault` on every other language before the unique index on `code` rejects the insert | saving a second default 'en' into a store whose only default is 'en': the save fails, and the store is left with no default language. Both visible callers look the code up with `findOne({code})` first (src/app/api/admin/languages/route.ts:57-63, src/lib/languages.ts:21), so the input is reachable only through a concurrent insert of the same code | a failed save leaves the collection unchanged, and at most one default always remains | low, not executed | LanguageModel.SaveNewAsWrittenLosesDefault | LanguageModel.SaveNewKeepsInvariants |
| src/components/AlternativeApps.tsx:23-25 | each of the `target` and `rel` removals runs a single global pass, and the text around a removed match can join into a new attribute | ` rerel="x"l="y"` is cleaned to ` rel="y"`, which still carries a `rel` attribute | no `target` or `rel` attribute is left in a cleaned link | low, not executed | AlternativeApps.SinglePassLeavesRel | AlternativeApps.CleanAttributesFixed |
