/**
 * `GET /api/random-blog-posts`: up to `limit` published posts other than
 * the current one that have some text in the requested locale, drawn at
 * random by the database and projected to the locale. The random draw is
 * a parameter: the sample the database returned, or its error.
 */
module RandomPosts {
  import opened Wrappers
  import opened JsStrings
  import opened Localize

  /** The stored rating; a missing `stars` or `votes` reads like the falsy 0. */
  datatype StoredRating = StoredRating(stars: Option<int>, votes: Option<int>)

  datatype StoredPost = StoredPost(
    id: string, status: string, slug: string,
    title: LocalizedText, description: LocalizedText, content: LocalizedText,
    imageUrl: Option<string>, rating: Option<StoredRating>)

  datatype Rating = Rating(stars: int, votes: int)

  datatype RandomPost = RandomPost(
    id: string, title: string, description: string, imageUrl: Option<string>, slug: string, rating: Rating)

  /** The query string's `locale`, `currentSlug` and `limit`, each possibly absent. */
  datatype Query = Query(locale: Option<string>, currentSlug: Option<string>, limit: Option<string>)

  datatype Reply =
    | Success(posts: seq<RandomPost>, cacheControl: string)
    | Failure(status: int, error: string)

  const DefaultStars := 4
  const DefaultVotes := 2549

  /** `searchParams.get(name) || fallback`. */
  function ParamOr(p: Option<string>, fallback: string): (r: string)
    ensures p.Some? && p.value != "" ==> r == p.value
    ensures p.None? || p.value == "" ==> r == fallback
  {
    if p.Some? && p.value != "" then p.value else fallback
  }

  /** `parseInt(searchParams.get('limit') || '6')`; `None` is NaN. */
  function SampleSize(q: Query): (r: Option<int>)
    ensures q.limit.None? || q.limit.value == "" ==> r == ParseInt("6")
    ensures q.limit.Some? && q.limit.value != "" ==> r == ParseInt(q.limit.value)
  {
    ParseInt(ParamOr(q.limit, "6"))
  }

  /**
   * The size `$sample` works with: the parsed `limit`, and 0 for NaN, since
   * the database converts a NaN size to a whole number as 0.
   */
  function SampleBound(q: Query): (r: int)
    ensures SampleSize(q).Some? ==> r == SampleSize(q).value
    ensures SampleSize(q).None? ==> r == 0
  {
    match SampleSize(q)
    case Some(n) => n
    case None => 0
  }

  /** `{ [path]: { $exists: true, $ne: "" } }` on one locale of a text field. */
  predicate HasText(m: LocalizedText, locale: string) {
    At(m, locale) != ""
  }

  /** The `$match` stage. */
  predicate Eligible(post: StoredPost, locale: string, currentSlug: string) {
    && post.status == "published"
    && post.slug != currentSlug
    && (HasText(post.title, locale) || HasText(post.description, locale) || HasText(post.content, locale))
  }

  /** `x || fallback` on a number. */
  function NumberOr(x: Option<int>, fallback: int): (r: int)
    ensures x.Some? && x.value != 0 ==> r == x.value
    ensures x.None? || x.value == 0 ==> r == fallback
  {
    if x.Some? && x.value != 0 then x.value else fallback
  }

  /** The rating shown: stored values where truthy, 4 stars and 2549 votes otherwise. */
  function RatingOf(r: Option<StoredRating>): (out: Rating)
    ensures r.None? ==> out == Rating(DefaultStars, DefaultVotes)
    ensures r.Some? ==> out == Rating(NumberOr(r.value.stars, DefaultStars), NumberOr(r.value.votes, DefaultVotes))
    ensures out.stars != 0 && out.votes != 0
  {
    match r
    case None => Rating(DefaultStars, DefaultVotes)
    case Some(s) => Rating(NumberOr(s.stars, DefaultStars), NumberOr(s.votes, DefaultVotes))
  }

  /** One projected post: texts in the locale (falling back to English), the rest copied. */
  function Project(post: StoredPost, locale: string): (r: RandomPost)
    ensures r.id == post.id && r.slug == post.slug && r.imageUrl == post.imageUrl
    ensures r.title == Resolve(post.title, locale) && r.description == Resolve(post.description, locale)
    ensures r.rating == RatingOf(post.rating)
  {
    RandomPost(post.id, Resolve(post.title, locale), Resolve(post.description, locale),
               post.imageUrl, post.slug, RatingOf(post.rating))
  }

  /** `posts.map(...)`: one output per sampled post, in order. */
  function ProjectAll(sample: seq<StoredPost>, locale: string): (r: seq<RandomPost>)
    ensures |r| == |sample|
    ensures forall i :: 0 <= i < |sample| ==> r[i] == Project(sample[i], locale)
  {
    seq(|sample|, i requires 0 <= i < |sample| => Project(sample[i], locale))
  }

  const CacheControl := "public, s-maxage=1800, stale-while-revalidate=3600"

  /**
   * The handler: the aggregation's result decides. A database error, such as
   * the refusal of a negative size, gives the 500 reply; a sample is
   * projected into the locale.
   */
  function Get(q: Query, sample: Result<seq<StoredPost>, string>): (r: Reply)
    ensures r.Failure? ==> r == Failure(500, "Failed to fetch random posts")
    ensures r.Success? <==> sample.Ok?
    ensures r.Success? ==> r.posts == ProjectAll(sample.value, ParamOr(q.locale, "en")) && r.cacheControl == CacheControl
  {
    if sample.Ok? then Success(ProjectAll(sample.value, ParamOr(q.locale, "en")), CacheControl)
    else Failure(500, "Failed to fetch random posts")
  }

  /**
   * What `$sample` may return: eligible posts of the collection, at most
   * `SampleBound(q)` of them, so none for an unparsable `limit`; the model
   * does not require the draws to be distinct.
   */
  predicate ValidSample(sample: seq<StoredPost>, db: seq<StoredPost>, q: Query) {
    && |sample| <= SampleBound(q)
    && forall p :: p in sample ==> p in db && Eligible(p, ParamOr(q.locale, "en"), ParamOr(q.currentSlug, ""))
  }

  /**
   * For a sample `$sample` may return, the reply succeeds with no more than
   * `limit` posts, each the projection of its sampled post in the locale; the
   * posts' eligibility is what the sampling contract assumes.
   */
  lemma ReturnedPostsEligible(db: seq<StoredPost>, q: Query, sample: seq<StoredPost>)
    requires ValidSample(sample, db, q)
    ensures Get(q, Ok(sample)).Success?
    ensures |Get(q, Ok(sample)).posts| <= SampleBound(q)
    ensures forall i :: 0 <= i < |sample| ==>
      Get(q, Ok(sample)).posts[i] == Project(sample[i], ParamOr(q.locale, "en"))
  {
  }

  /**
   * Eligibility does not guarantee a title in the locale: a post with only a
   * description there passes the match yet shows the English title, or ''.
   */
  lemma DescriptionOnlyShowsEnglishTitle(post: StoredPost, locale: string)
    requires post.status == "published" && post.slug != ""
    requires !HasText(post.title, locale) && HasText(post.description, locale)
    ensures Eligible(post, locale, "")
    ensures Project(post, locale).title == At(post.title, "en")
  {
  }

  /** A stored 0 counts as missing: 0 votes are shown as 2549, 0 stars as 4. */
  lemma ZeroRatingShownAsDefault(s: Option<int>)
    ensures RatingOf(Some(StoredRating(s, Some(0)))).votes == DefaultVotes
    ensures RatingOf(Some(StoredRating(Some(0), s))).stars == DefaultStars
  {
  }

  /** A `limit` that does not parse asks for no posts: the reply succeeds with an empty list. */
  lemma UnparsableLimitAnswersEmpty(db: seq<StoredPost>, q: Query, sample: seq<StoredPost>)
    requires SampleSize(q).None? && ValidSample(sample, db, q)
    ensures Get(q, Ok(sample)) == Success([], CacheControl)
  {
  }

  /** Without a `limit` parameter six posts are asked for. */
  lemma DefaultLimitIsSix(locale: Option<string>, currentSlug: Option<string>)
    ensures SampleSize(Query(locale, currentSlug, None)) == Some(6)
  {
    ParseIntRoundTrip(6);
    assert IntToString(6) == "6";
  }
}
