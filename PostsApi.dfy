/**
 * The admin posts API. Listing migrates legacy data on the way out: pros and
 * cons stored as arrays of lines become one newline-separated string per
 * locale, and alternatives lose every field but name and description. It
 * pages with `skip = (page - 1) * limit`. Creating a post derives its slug,
 * refuses a slug that is already taken, and fills in defaults.
 */
module PostsApi {
  import opened Wrappers
  import opened Records
  import opened JsStrings
  import opened JsValues

  const TypeError := "TypeError"

  // ---------------------------------------------------------------------------
  // Listing: legacy pros/cons migration.

  /** The strings kept by `data.filter(item => item && typeof item === 'string' && item.trim())`. */
  function KeptLines(items: seq<Value>): (r: seq<string>)
    ensures |r| <= |items|
  {
    if |items| == 0 then [] else Kept(items[0]) + KeptLines(items[1..])
  }

  /** What the filter keeps of one item: the string itself, or nothing. */
  function Kept(v: Value): (r: seq<string>)
    ensures r == [] || (v.Str? && r == [v.s])
  {
    if v.Str? && Trim(v.s) != "" then [v.s] else []
  }

  /** Exactly the string items whose trim is non-empty are kept, untrimmed. */
  lemma {:induction false} KeptLinesMembers(items: seq<Value>)
    ensures forall x :: x in KeptLines(items) <==> Str(x) in items && Trim(x) != ""
  {
    if |items| > 0 {
      KeptLinesMembers(items[1..]);
      assert items == [items[0]] + items[1..];
    }
  }

  /** The filter keeps one item exactly when it is a string with non-white-space content. */
  lemma KeptLinesOne(v: Value)
    ensures KeptLines([v]) == if v.Str? && Trim(v.s) != "" then [v.s] else []
  {
    assert [v][1..] == [];
  }

  /** The filter works item by item, so it keeps the order of the items it keeps. */
  lemma {:induction false} KeptLinesConcat(a: seq<Value>, b: seq<Value>)
    ensures KeptLines(a + b) == KeptLines(a) + KeptLines(b)
  {
    if |a| == 0 {
      assert a + b == b;
    } else {
      assert (a + b)[0] == a[0] && (a + b)[1..] == a[1..] + b;
      assert KeptLines(a + b) == Kept(a[0]) + KeptLines(a[1..] + b);
      KeptLinesConcat(a[1..], b);
      LinesAssoc(Kept(a[0]), KeptLines(a[1..]), KeptLines(b));
    }
  }

  lemma LinesAssoc(x: seq<string>, y: seq<string>, z: seq<string>)
    ensures x + (y + z) == x + y + z
  {
  }

  /**
   * `migrateProsConsData(data)`: an array keeps its non-blank string items,
   * untrimmed and in order, joined with newlines; a string is already
   * migrated; anything else becomes ''.
   */
  function MigrateProsCons(data: Value): (r: string)
    ensures data.Str? ==> r == data.s
    ensures data.Array? ==> r == Join(KeptLines(data.items), "\n")
    ensures !data.Str? && !data.Array? ==> r == ""
  {
    match data
    case Array(items) => Join(KeptLines(items), "\n")
    case Str(s) => s
    case _ => ""
  }

  /** Migration is idempotent: its output is a string, which migrates to itself. */
  lemma MigrateIdempotent(data: Value)
    ensures MigrateProsCons(Str(MigrateProsCons(data))) == MigrateProsCons(data)
  {
  }

  /**
   * The migrated string holds exactly the kept lines: splitting it on newlines
   * gives them back, as long as no kept item itself contains a newline.
   */
  lemma MigratedLines(items: seq<Value>)
    requires |KeptLines(items)| >= 1
    requires forall x :: Str(x) in items ==> '\n' !in x
    ensures Split(MigrateProsCons(Array(items)), '\n') == KeptLines(items)
  {
    var kept := KeptLines(items);
    KeptLinesMembers(items);
    assert forall i :: 0 <= i < |kept| ==> kept[i] in kept;
    assert "\n" == ['\n'];
    JoinSplit(kept, '\n');
  }

  /** The per-locale map after migration: the same locales, in order, each with its data migrated. */
  function MigratedLocales(entries: Record<Value>): (r: Record<string>)
    ensures |r| == |entries|
    ensures forall i :: 0 <= i < |entries| ==> r[i] == (entries[i].0, MigrateProsCons(entries[i].1))
  {
    seq(|entries|, i requires 0 <= i < |entries| => (entries[i].0, MigrateProsCons(entries[i].1)))
  }

  /**
   * `Object.entries(m).forEach(([locale, data]) => migrated[locale] = migrateProsConsData(data))`.
   * A JavaScript object never repeats a key, so every assignment adds a new locale.
   */
  method MigrateLocaleMap(entries: Record<Value>) returns (migrated: Record<string>)
    requires DistinctKeys(entries)
    ensures migrated == MigratedLocales(entries)
  {
    migrated := [];
    var i := 0;
    while i < |entries|
      invariant i <= |entries|
      invariant migrated == MigratedLocales(entries[..i])
    {
      var locale := entries[i].0;
      var data := entries[i].1;
      assert locale !in Keys(migrated) by {
        assert forall j :: 0 <= j < i ==> Keys(migrated)[j] == entries[j].0;
      }
      PutNew(migrated, locale, MigrateProsCons(data));
      migrated := Put(migrated, locale, MigrateProsCons(data));
      assert entries[..i + 1] == entries[..i] + [entries[i]];
      i := i + 1;
    }
    assert entries[..i] == entries;
  }

  /** Migration keeps each map's locales, in order, and rewrites only the values. */
  lemma MigrationKeepsLocales(entries: Record<Value>)
    ensures Keys(MigratedLocales(entries)) == Keys(entries)
  {
    var r := MigratedLocales(entries);
    assert forall i :: 0 <= i < |entries| ==> Keys(r)[i] == r[i].0 == entries[i].0 == Keys(entries)[i];
  }

  /** The strings of a migrated map, as the values stored back into the post. */
  function Lift(m: Record<string>): (r: Record<Value>)
    ensures |r| == |m|
    ensures forall i :: 0 <= i < |m| ==> r[i] == (m[i].0, Str(m[i].1))
  {
    seq(|m|, i requires 0 <= i < |m| => (m[i].0, Str(m[i].1)))
  }

  /** Migrating an already migrated map changes nothing. */
  lemma MigrationIdempotent(entries: Record<Value>)
    ensures MigratedLocales(Lift(MigratedLocales(entries))) == MigratedLocales(entries)
  {
  }

  /** `if (pc[side]) pc[side] = migrated(Object.entries(pc[side]))`. */
  function MigrateSide(pc: Record<Value>, side: string): (r: Record<Value>)
    ensures var data := Lookup(pc, side).GetOr(Undefined);
            Truthy(data) ==> Lookup(r, side) == Some(Object(Lift(MigratedLocales(Entries(data)))))
    ensures !Truthy(Lookup(pc, side).GetOr(Undefined)) ==> r == pc
    ensures forall k :: k != side ==> Lookup(r, k) == Lookup(pc, k)
  {
    var data := Lookup(pc, side).GetOr(Undefined);
    if Truthy(data) then
      var m := Object(Lift(MigratedLocales(Entries(data))));
      LookupPutAll(pc, side, m);
      Put(pc, side, m)
    else pc
  }

  lemma LookupPutAll(r: Record<Value>, k: string, v: Value)
    ensures forall k' :: Lookup(Put(r, k, v), k') == if k' == k then Some(v) else Lookup(r, k')
  {
    forall k' ensures Lookup(Put(r, k, v), k') == if k' == k then Some(v) else Lookup(r, k') {
      LookupPut(r, k, v, k');
    }
  }

  // ---------------------------------------------------------------------------
  // Listing: alternatives cleanup.

  /** `{ name: alt.name, description: alt.description }` for an alternative that is not null or undefined. */
  function CleanAlternative(alt: Value): Value {
    Object([("name", Get(alt, "name")), ("description", Get(alt, "description"))])
  }

  /** `alternatives.map(alt => ...)`: reading a property of null or undefined throws. */
  function CleanAlternatives(alts: seq<Value>): (r: Result<seq<Value>, string>)
    ensures r.Ok? <==> forall i :: 0 <= i < |alts| ==> !alts[i].Null? && !alts[i].Undefined?
    ensures r.Ok? ==> |r.value| == |alts|
    ensures r.Ok? ==> forall i :: 0 <= i < |alts| ==> r.value[i] == CleanAlternative(alts[i])
  {
    if forall i :: 0 <= i < |alts| ==> !alts[i].Null? && !alts[i].Undefined? then
      Ok(seq(|alts|, i requires 0 <= i < |alts| => CleanAlternative(alts[i])))
    else Err(TypeError)
  }

  /** A cleaned alternative has exactly the two fields, and cleaning it again changes nothing. */
  lemma CleanAlternativeShape(alt: Value)
    ensures Keys(CleanAlternative(alt).fields) == ["name", "description"]
    ensures Get(CleanAlternative(alt), "name") == Get(alt, "name")
    ensures Get(CleanAlternative(alt), "description") == Get(alt, "description")
    ensures CleanAlternative(CleanAlternative(alt)) == CleanAlternative(alt)
  {
    var c := CleanAlternative(alt).fields;
    assert "name" != "description";
    assert c[1..] == [("description", Get(alt, "description"))];
    assert Lookup(c[1..], "description") == Some(Get(alt, "description"));
    assert Lookup(c, "description") == Lookup(c[1..], "description");
    assert Keys(c) == [c[0].0] + Keys(c[1..]);
  }

  /**
   * The first half of the rewrite: a truthy object `prosAndCons` gets its
   * `pros` and then its `cons` migrated, in place, so the post keeps its keys
   * in their order; any other post is left as it is.
   */
  function MigrateProsAndCons(post: Record<Value>): (r: Record<Value>)
    ensures var pc := Lookup(post, "prosAndCons").GetOr(Undefined);
            && (Truthy(pc) && pc.Object? ==>
                  Lookup(r, "prosAndCons") == Some(Object(MigrateSide(MigrateSide(pc.fields, "pros"), "cons"))))
            && (!(Truthy(pc) && pc.Object?) ==> r == post)
    ensures forall k :: k != "prosAndCons" ==> Lookup(r, k) == Lookup(post, k)
    ensures Keys(r) == Keys(post)
  {
    var pc := Lookup(post, "prosAndCons").GetOr(Undefined);
    if Truthy(pc) && pc.Object? then
      var migrated := Object(MigrateSide(MigrateSide(pc.fields, "pros"), "cons"));
      LookupPutAll(post, "prosAndCons", migrated);
      LookupSomeIffKey(post, "prosAndCons");
      KeysPut(post, "prosAndCons", migrated);
      Put(post, "prosAndCons", migrated)
    else post
  }

  /** The second half of the rewrite: an array `alternatives` is cleaned in place; any other value is kept. */
  function MigrateAlternatives(post: Record<Value>): (r: Result<Record<Value>, string>)
    ensures var alts := Lookup(post, "alternatives").GetOr(Undefined);
            && (!alts.Array? ==> r == Ok(post))
            && (alts.Array? && CleanAlternatives(alts.items).Ok? ==>
                  && r.Ok?
                  && Lookup(r.value, "alternatives") == Some(Array(CleanAlternatives(alts.items).value)))
            && (alts.Array? && CleanAlternatives(alts.items).Err? ==> r.Err?)
    ensures r.Ok? ==> Keys(r.value) == Keys(post)
    ensures r.Ok? ==> forall k :: k != "alternatives" ==> Lookup(r.value, k) == Lookup(post, k)
  {
    var alts := Lookup(post, "alternatives").GetOr(Undefined);
    if alts.Array? then
      match CleanAlternatives(alts.items)
      case Ok(cleaned) =>
        LookupPutAll(post, "alternatives", Array(cleaned));
        LookupSomeIffKey(post, "alternatives");
        KeysPut(post, "alternatives", Array(cleaned));
        Ok(Put(post, "alternatives", Array(cleaned)))
      case Err(e) => Err(e)
    else Ok(post)
  }

  /**
   * The listing's per-post rewrite. A truthy object `prosAndCons` has its
   * truthy `pros` and `cons` maps migrated; an array `alternatives` is
   * cleaned, and fails on a null or undefined item. The post keeps its keys
   * in their order, and every other field is left as it was.
   */
  function MigratePost(post: Record<Value>): (r: Result<Record<Value>, string>)
    ensures var alts := Lookup(post, "alternatives").GetOr(Undefined);
            && (!alts.Array? ==> r == Ok(MigrateProsAndCons(post)))
            && (alts.Array? && CleanAlternatives(alts.items).Ok? ==>
                  && r.Ok?
                  && Lookup(r.value, "alternatives") == Some(Array(CleanAlternatives(alts.items).value)))
            && (alts.Array? && CleanAlternatives(alts.items).Err? ==> r.Err?)
    ensures r.Ok? ==> Lookup(r.value, "prosAndCons") == Lookup(MigrateProsAndCons(post), "prosAndCons")
    ensures r.Ok? ==> Keys(r.value) == Keys(post)
    ensures r.Ok? ==> forall k :: k != "prosAndCons" && k != "alternatives" ==> Lookup(r.value, k) == Lookup(post, k)
  {
    var post1 := MigrateProsAndCons(post);
    assert Lookup(post1, "alternatives") == Lookup(post, "alternatives");
    MigrateAlternatives(post1)
  }

  /** A side whose data, if truthy, is already the migrated map of itself. */
  predicate SideSettled(pc: Record<Value>, side: string) {
    var data := Lookup(pc, side).GetOr(Undefined);
    Truthy(data) ==> Lookup(pc, side) == Some(Object(Lift(MigratedLocales(Entries(data)))))
  }

  /** A settled side is left as it is. */
  lemma SettledSideFixed(pc: Record<Value>, side: string)
    requires SideSettled(pc, side)
    ensures MigrateSide(pc, side) == pc
  {
    if Truthy(Lookup(pc, side).GetOr(Undefined)) {
      PutLookup(pc, side);
    }
  }

  /** Migrating a side settles it. */
  lemma MigrateSideSettles(pc: Record<Value>, side: string)
    ensures SideSettled(MigrateSide(pc, side), side)
  {
    var data := Lookup(pc, side).GetOr(Undefined);
    if Truthy(data) {
      MigrationIdempotent(Entries(data));
    }
  }

  /** Migrating one side keeps the other side settled. */
  lemma MigrateSideKeepsSettled(pc: Record<Value>, side: string, other: string)
    requires side != other && SideSettled(pc, other)
    ensures SideSettled(MigrateSide(pc, side), other)
  {
  }

  /** Whether `prosAndCons` is left alone depends on that field only. */
  lemma ProsAndConsFixedByField(a: Record<Value>, b: Record<Value>)
    requires MigrateProsAndCons(a) == a
    requires Lookup(a, "prosAndCons") == Lookup(b, "prosAndCons")
    ensures MigrateProsAndCons(b) == b
  {
    var pc := Lookup(b, "prosAndCons").GetOr(Undefined);
    if Truthy(pc) && pc.Object? {
      PutLookup(b, "prosAndCons");
    }
  }

  /** Migrating `prosAndCons` twice is migrating it once. */
  lemma MigrateProsAndConsIdempotent(post: Record<Value>)
    ensures MigrateProsAndCons(MigrateProsAndCons(post)) == MigrateProsAndCons(post)
  {
    var pc := Lookup(post, "prosAndCons").GetOr(Undefined);
    if Truthy(pc) && pc.Object? {
      var p := MigrateSide(pc.fields, "pros");
      var q := MigrateSide(p, "cons");
      MigrateSideSettles(pc.fields, "pros");
      MigrateSideKeepsSettled(p, "cons", "pros");
      MigrateSideSettles(p, "cons");
      SettledSideFixed(q, "pros");
      SettledSideFixed(q, "cons");
      PutLookup(MigrateProsAndCons(post), "prosAndCons");
    }
  }

  /** Cleaned alternatives clean to themselves. */
  lemma CleanAlternativesIdempotent(alts: seq<Value>)
    requires CleanAlternatives(alts).Ok?
    ensures CleanAlternatives(CleanAlternatives(alts).value) == CleanAlternatives(alts)
  {
    var cleaned := CleanAlternatives(alts).value;
    assert forall i :: 0 <= i < |cleaned| ==> cleaned[i].Object?;
    var again := CleanAlternatives(cleaned).value;
    forall i | 0 <= i < |cleaned| ensures again[i] == cleaned[i] {
      CleanAlternativeShape(alts[i]);
    }
    assert again == cleaned;
  }

  /** The listing's rewrite is idempotent: a migrated post migrates to itself. */
  lemma MigratePostIdempotent(post: Record<Value>)
    requires MigratePost(post).Ok?
    ensures MigratePost(MigratePost(post).value) == MigratePost(post)
  {
    var post1 := MigrateProsAndCons(post);
    var post2 := MigratePost(post).value;
    MigrateProsAndConsIdempotent(post);
    ProsAndConsFixedByField(MigrateProsAndCons(post1), post2);
    var alts := Lookup(post, "alternatives").GetOr(Undefined);
    if alts.Array? {
      CleanAlternativesIdempotent(alts.items);
      PutLookup(post2, "alternatives");
    }
  }

  /** A post fails to migrate exactly when its alternatives are an array holding null or undefined. */
  lemma MigratePostFails(post: Record<Value>)
    ensures MigratePost(post).Err? <==>
      var alts := Lookup(post, "alternatives").GetOr(Undefined);
      alts.Array? && exists i :: 0 <= i < |alts.items| && (alts.items[i].Null? || alts.items[i].Undefined?)
  {
    var alts := Lookup(post, "alternatives").GetOr(Undefined);
    if alts.Array? {
      assert CleanAlternatives(alts.items).Err? <==>
        exists i :: 0 <= i < |alts.items| && (alts.items[i].Null? || alts.items[i].Undefined?);
    }
  }

  // ---------------------------------------------------------------------------
  // Listing: pagination.

  /** `parseInt(searchParams.get(name) || fallback)`: None is NaN. */
  function NumericParam(param: Option<string>, fallback: string): (r: Option<int>)
    ensures param.Some? && param.value != "" ==> r == ParseInt(param.value)
    ensures param.None? || param.value == "" ==> r == ParseInt(fallback)
  {
    ParseInt(if param.None? || param.value == "" then fallback else param.value)
  }

  /** A number written in decimal in the query is the number read, whatever the fallback. */
  lemma NumericParamReadsBack(n: int, fallback: string)
    ensures NumericParam(Some(IntToString(n)), fallback) == Some(n)
  {
    ParseIntRoundTrip(n);
    assert IntToString(n) != "" by {
      if n < 0 { } else { assert |NatToString(n)| >= 1; }
    }
  }

  /** `skip = (page - 1) * limit`: the posts on the pages before `page`. */
  function Skip(page: int, limit: int): (r: int)
    ensures r + limit == page * limit
    ensures page >= 1 && limit >= 0 ==> r >= 0
  {
    (page - 1) * limit
  }

  /** `Math.ceil(total / limit)` for a positive limit: the fewest pages of `limit` posts that hold `total`. */
  function PageCount(total: nat, limit: int): (pages: nat)
    requires limit > 0
    ensures pages * limit >= total
    ensures pages > 0 ==> (pages - 1) * limit < total
  {
    var q := (total + limit - 1) / limit;
    assert q * limit <= total + limit - 1 < (q + 1) * limit;
    q
  }

  lemma MulCancel(a: int, b: int, c: int)
    requires c > 0 && a * c < b * c
    ensures a < b
  {
    assert (b - a) * c == b * c - a * c;
  }

  /** Every post of the listing is on exactly one page, and that page is within the page count. */
  lemma PostOnPage(total: nat, limit: int, j: nat)
    requires limit > 0 && j < total
    ensures var page := j / limit + 1;
            1 <= page <= PageCount(total, limit) && Skip(page, limit) <= j < Skip(page, limit) + limit
    ensures forall page :: Skip(page, limit) <= j < Skip(page, limit) + limit ==> page == j / limit + 1
  {
    var q := j / limit;
    assert q * limit <= j < q * limit + limit;
    assert (q + 1) * limit == q * limit + limit;
    MulCancel(q, PageCount(total, limit), limit);
    forall page | Skip(page, limit) <= j < Skip(page, limit) + limit ensures page == q + 1 {
      assert page * limit == (page - 1) * limit + limit;
      MulCancel(q, page, limit);
      MulCancel(page - 1, q + 1, limit);
    }
  }

  // ---------------------------------------------------------------------------
  // Creating a post.

  /** The request body's fields, as parsed JSON. */
  datatype PostBody = PostBody(
    slug: Value, title: Value, content: Value, description: Value, imageUrl: Value,
    author: Value, categoryId: Value, status: Value, rating: Value, meta: Value,
    faqs: Value, alternatives: Value, alternativesDescription: Value, prosAndCons: Value)

  datatype Rating = Rating(stars: Value, votes: Value)
  datatype Meta = Meta(title: Value, description: Value, keywords: Value, canonical: Value)
  datatype Faq = Faq(question: Value, answer: Value)
  datatype Alternative = Alternative(name: Value, description: Value)

  /** `postData`: what is handed to the store. Absent optional parts are `None`. */
  datatype PostData = PostData(
    slug: Value, title: Value, content: Value, description: Value, imageUrl: Value,
    author: Value, categoryId: Value, status: Value,
    rating: Option<Rating>, meta: Option<Meta>, faqs: Option<seq<Faq>>,
    alternatives: Option<seq<Alternative>>, alternativesDescription: Option<Value>,
    prosAndCons: Option<(Value, Value)>)

  /** `new Map(Object.entries(v))`: `Object.entries` throws on null and undefined. */
  function AsMap(v: Value): (r: Result<Value, string>)
    ensures r.Err? <==> v.Null? || v.Undefined?
  {
    if v.Null? || v.Undefined? then Err(TypeError) else Ok(Object(Entries(v)))
  }

  /** The slug: `body.slug` when truthy, else `slugify(title.en || '')`. */
  function SlugFor(body: PostBody, slugify: string -> string): (r: Result<Value, string>)
    ensures Truthy(body.slug) ==> r == Ok(body.slug)
  {
    if Truthy(body.slug) then Ok(body.slug)
    else if body.title.Null? || body.title.Undefined? then Err(TypeError)
    else
      var en := Or(Get(body.title, "en"), Str(""));
      if en.Str? then Ok(Str(slugify(en.s))) else Err("slugify: string argument expected")
  }

  /**
   * `v && v.length > 0`: an array's or a string's own length, or an object's
   * `length` property converted to a number by the comparison. Other values
   * have no `length`, and `undefined > 0` is false.
   */
  predicate HasItems(v: Value) {
    match v
    case Array(items) => |items| > 0
    case Str(s) => |s| > 0
    case Object(_) => GreaterThanZero(Get(v, "length"))
    case _ => false
  }

  /**
   * The guard compares an object's `length` the way JavaScript does: an
   * integer counts when it is positive, whether it is stored as a number,
   * written out as a string or wrapped in a one-element array.
   */
  lemma HasItemsNumericLength(n: int)
    ensures HasItems(Object([("length", Num(n))])) <==> n > 0
    ensures HasItems(Object([("length", Str(ToStr(Num(n))))])) <==> n > 0
    ensures HasItems(Object([("length", Array([Num(n)]))])) <==> n > 0
  {
    HasItemsLength(Num(n));
    HasItemsLength(Str(ToStr(Num(n))));
    HasItemsLength(Array([Num(n)]));
    NumberSignThroughString(n);
  }

  /** `true` counts as 1; `null`, a plain object and a missing `length` do not count. */
  lemma HasItemsOtherLengths()
    ensures HasItems(Object([("length", Bool(true))]))
    ensures !HasItems(Object([("length", Object([]))]))
    ensures !HasItems(Object([("length", Null)]))
    ensures !HasItems(Object([]))
  {
    HasItemsLength(Bool(true));
    HasItemsLength(Object([]));
    HasItemsLength(Null);
    ObjectIsNaN([]);
  }

  /** A `length` written as text that opens like no numeric literal (`'abc'`) reads as NaN and fails the guard. */
  lemma HasItemsTextLength(t: string)
    requires |t| > 0 && !JsStrings.IsSpace(t[0]) && !JsStrings.IsSpace(t[|t| - 1])
    requires !JsStrings.IsDecDigit(t[0]) && t[0] !in ".+-I"
    ensures !HasItems(Object([("length", Str(t))]))
  {
    HasItemsLength(Str(t));
    JsStrings.NoLiteralStartIsNaN(t);
  }

  /** An object holding only `length` passes the guard exactly when that value compares above 0. */
  lemma HasItemsLength(x: Value)
    ensures HasItems(Object([("length", x)])) <==> GreaterThanZero(x)
  {
    assert Get(Object([("length", x)]), "length") == x;
  }

  /**
   * Anything that passes the guard but is not an array has no `map`, so the
   * conversion throws; otherwise the list is present exactly when it passes.
   */
  lemma OptionalListsNeedArrays(v: Value)
    ensures HasItems(v) && !v.Array? ==> OptionalFaqs(v) == Err(TypeError)
    ensures HasItems(v) && !v.Array? ==> OptionalAlternatives(v) == Err(TypeError)
    ensures OptionalFaqs(v).Ok? ==> (OptionalFaqs(v).value.Some? <==> HasItems(v) && v.Array?)
    ensures OptionalAlternatives(v).Ok? ==> (OptionalAlternatives(v).value.Some? <==> HasItems(v) && v.Array?)
  {
  }

  /** `faqs.map(faq => ({question: new Map(Object.entries(faq.question)), ...}))`. */
  function MapFaqs(faqs: seq<Value>): (r: Result<seq<Faq>, string>)
    ensures r.Ok? <==> forall i :: 0 <= i < |faqs| ==>
      !faqs[i].Null? && !faqs[i].Undefined? && AsMap(Get(faqs[i], "question")).Ok? && AsMap(Get(faqs[i], "answer")).Ok?
    ensures r.Ok? ==> |r.value| == |faqs|
    ensures r.Ok? ==> forall i :: 0 <= i < |faqs| ==>
      r.value[i] == Faq(AsMap(Get(faqs[i], "question")).value, AsMap(Get(faqs[i], "answer")).value)
  {
    if |faqs| == 0 then Ok([])
    else if faqs[0].Null? || faqs[0].Undefined? then Err(TypeError)
    else
      match (AsMap(Get(faqs[0], "question")), AsMap(Get(faqs[0], "answer")), MapFaqs(faqs[1..]))
      case (Ok(q), Ok(a), Ok(rest)) => Ok([Faq(q, a)] + rest)
      case _ => Err(TypeError)
  }

  /** `alternatives.map(alt => ({name: new Map(Object.entries(alt.name)), ...}))`. */
  function MapAlternatives(alts: seq<Value>): (r: Result<seq<Alternative>, string>)
    ensures r.Ok? <==> forall i :: 0 <= i < |alts| ==>
      !alts[i].Null? && !alts[i].Undefined? && AsMap(Get(alts[i], "name")).Ok? && AsMap(Get(alts[i], "description")).Ok?
    ensures r.Ok? ==> |r.value| == |alts|
    ensures r.Ok? ==> forall i :: 0 <= i < |alts| ==>
      r.value[i] == Alternative(AsMap(Get(alts[i], "name")).value, AsMap(Get(alts[i], "description")).value)
  {
    if |alts| == 0 then Ok([])
    else if alts[0].Null? || alts[0].Undefined? then Err(TypeError)
    else
      match (AsMap(Get(alts[0], "name")), AsMap(Get(alts[0], "description")), MapAlternatives(alts[1..]))
      case (Ok(n), Ok(d), Ok(rest)) => Ok([Alternative(n, d)] + rest)
      case _ => Err(TypeError)
  }

  /** `faqs && faqs.length > 0 ? faqs.map(...) : absent`; only an array has `map`. */
  function OptionalFaqs(v: Value): Result<Option<seq<Faq>>, string> {
    if !HasItems(v) then Ok(None)
    else if !v.Array? then Err(TypeError)
    else match MapFaqs(v.items)
      case Ok(fs) => Ok(Some(fs))
      case Err(e) => Err(e)
  }

  function OptionalAlternatives(v: Value): Result<Option<seq<Alternative>>, string> {
    if !HasItems(v) then Ok(None)
    else if !v.Array? then Err(TypeError)
    else match MapAlternatives(v.items)
      case Ok(alts) => Ok(Some(alts))
      case Err(e) => Err(e)
  }

  function OptionalMeta(v: Value): Result<Option<Meta>, string> {
    if !Truthy(v) then Ok(None)
    else match (AsMap(Get(v, "title")), AsMap(Get(v, "description")), AsMap(Get(v, "keywords")))
      case (Ok(t), Ok(d), Ok(k)) => Ok(Some(Meta(t, d, k, Get(v, "canonical"))))
      case _ => Err(TypeError)
  }

  function OptionalMap(v: Value): Result<Option<Value>, string> {
    if !Truthy(v) then Ok(None)
    else match AsMap(v)
      case Ok(m) => Ok(Some(m))
      case Err(e) => Err(e)
  }

  function OptionalProsAndCons(v: Value): Result<Option<(Value, Value)>, string> {
    if !Truthy(v) then Ok(None)
    else match (AsMap(Get(v, "pros")), AsMap(Get(v, "cons")))
      case (Ok(p), Ok(c)) => Ok(Some((p, c)))
      case _ => Err(TypeError)
  }

  /** The `postData` object built from the body and the slug; a conversion that throws is the error. */
  function BuildPostData(body: PostBody, slug: Value): (r: Result<PostData, string>)
    ensures r.Err? ==> r == Err(TypeError)
    ensures r.Ok? <==>
      && AsMap(body.title).Ok? && AsMap(body.content).Ok? && AsMap(body.description).Ok?
      && OptionalMeta(body.meta).Ok? && OptionalFaqs(body.faqs).Ok?
      && OptionalAlternatives(body.alternatives).Ok?
      && OptionalMap(body.alternativesDescription).Ok? && OptionalProsAndCons(body.prosAndCons).Ok?
    ensures r.Ok? ==>
      && r.value.slug == slug && r.value.imageUrl == body.imageUrl
      && r.value.title == Object(Entries(body.title))
      && r.value.content == Object(Entries(body.content))
      && r.value.description == Object(Entries(body.description))
      && r.value.meta == OptionalMeta(body.meta).value
      && r.value.faqs == OptionalFaqs(body.faqs).value
      && r.value.alternatives == OptionalAlternatives(body.alternatives).value
      && r.value.alternativesDescription == OptionalMap(body.alternativesDescription).value
      && r.value.prosAndCons == OptionalProsAndCons(body.prosAndCons).value
  {
    match (AsMap(body.title), AsMap(body.content), AsMap(body.description))
    case (Ok(title), Ok(content), Ok(description)) =>
      var rating := if Truthy(body.rating)
        then Some(Rating(Or(Get(body.rating, "stars"), Num(5)), Or(Get(body.rating, "votes"), Num(0))))
        else None;
      (match (OptionalMeta(body.meta), OptionalFaqs(body.faqs), OptionalAlternatives(body.alternatives),
              OptionalMap(body.alternativesDescription), OptionalProsAndCons(body.prosAndCons))
       case (Ok(meta), Ok(faqs), Ok(alts), Ok(altDescription), Ok(pc)) =>
         Ok(PostData(slug, title, content, description, body.imageUrl,
           Or(body.author, Null), Or(body.categoryId, Null), Or(body.status, Str("draft")),
           rating, meta, faqs, alts, altDescription, pc))
       case _ => Err(TypeError))
    case _ => Err(TypeError)
  }

  /** The HTTP outcome of a create request. */
  datatype CreateStatus = Created | SlugTaken | Failed

  predicate SlugInUse(posts: seq<PostData>, slug: Value) {
    exists i :: 0 <= i < |posts| && posts[i].slug == slug
  }

  /**
   * `POST`: 400 and no insert when the slug is in use; 500 and no insert when
   * building the document throws; otherwise the new post is appended.
   */
  function CreatePost(posts: seq<PostData>, body: PostBody, slugify: string -> string): (r: (CreateStatus, seq<PostData>))
    ensures r.0 != Created ==> r.1 == posts
    ensures r.0 == Created ==> |r.1| == |posts| + 1 && r.1[..|posts|] == posts
    ensures r.0 == Created <==>
      SlugFor(body, slugify).Ok? && !SlugInUse(posts, SlugFor(body, slugify).value)
      && BuildPostData(body, SlugFor(body, slugify).value).Ok?
    ensures r.0 == Created ==> BuildPostData(body, SlugFor(body, slugify).value) == Ok(r.1[|posts|])
  {
    match SlugFor(body, slugify)
    case Err(_) => (Failed, posts)
    case Ok(slug) =>
      if SlugInUse(posts, slug) then (SlugTaken, posts)
      else match BuildPostData(body, slug)
        case Ok(data) => (Created, posts + [data])
        case Err(_) => (Failed, posts)
  }

  /** A slug already in use is refused with 400, whatever else the body holds. */
  lemma DuplicateSlugRejected(posts: seq<PostData>, body: PostBody, slugify: string -> string, i: nat)
    requires SlugFor(body, slugify).Ok? && i < |posts| && posts[i].slug == SlugFor(body, slugify).value
    ensures CreatePost(posts, body, slugify) == (SlugTaken, posts)
  {
  }

  /**
   * A created post gets status 'draft' unless one is given, author and
   * category null unless given, a rating of 5 stars and 0 votes where those
   * are falsy, and FAQs and alternatives only when the lists are non-empty.
   */
  lemma CreatedPostDefaults(posts: seq<PostData>, body: PostBody, slugify: string -> string)
    requires CreatePost(posts, body, slugify).0 == Created
    ensures var d := CreatePost(posts, body, slugify).1[|posts|];
      && d.status == (if Truthy(body.status) then body.status else Str("draft"))
      && d.author == (if Truthy(body.author) then body.author else Null)
      && d.categoryId == (if Truthy(body.categoryId) then body.categoryId else Null)
      && (d.rating.Some? <==> Truthy(body.rating))
      && (d.rating.Some? ==> d.rating.value.stars == Or(Get(body.rating, "stars"), Num(5)))
      && (d.rating.Some? ==> d.rating.value.votes == Or(Get(body.rating, "votes"), Num(0)))
      && (d.faqs.Some? <==> HasItems(body.faqs))
      && (d.alternatives.Some? <==> HasItems(body.alternatives))
      && (d.faqs.Some? ==> |d.faqs.value| == |body.faqs.items|)
      && (d.alternatives.Some? ==> |d.alternatives.value| == |body.alternatives.items|)
  {
  }

  /**
   * A `faqs` or `alternatives` value that passes `length > 0` without being an
   * array (`{length: "1"}`, a non-empty string) makes building the post
   * throw: the request answers 500 and nothing is inserted.
   */
  lemma ArrayLikeListFails(posts: seq<PostData>, body: PostBody, slugify: string -> string)
    requires (HasItems(body.faqs) && !body.faqs.Array?) || (HasItems(body.alternatives) && !body.alternatives.Array?)
    requires SlugFor(body, slugify).Ok? && !SlugInUse(posts, SlugFor(body, slugify).value)
    ensures CreatePost(posts, body, slugify) == (Failed, posts)
  {
    OptionalListsNeedArrays(body.faqs);
    OptionalListsNeedArrays(body.alternatives);
  }

  /** The posts collection: the store is left abstract except for slug lookup and insertion. */
  class PostStore {
    var posts: seq<PostData>

    constructor(initial: seq<PostData>)
      ensures posts == initial
    {
      posts := initial;
    }

    /** `POST /api/admin/posts`: look the slug up, then build and insert the post. */
    method Create(body: PostBody, slugify: string -> string) returns (status: CreateStatus)
      modifies this
      ensures (status, posts) == CreatePost(old(posts), body, slugify)
    {
      var slug := SlugFor(body, slugify);
      if slug.Err? {
        return Failed;
      }
      if exists i :: 0 <= i < |posts| && posts[i].slug == slug.value {
        return SlugTaken;
      }
      var data := BuildPostData(body, slug.value);
      if data.Err? {
        return Failed;
      }
      posts := posts + [data.value];
      return Created;
    }
  }
}
