/**
 * The structured data a post page emits: an Article, an optional FAQPage and
 * a BreadcrumbList whose items carry consecutive positions from 1, as
 * schema.org's BreadcrumbList requires. Every URL is the site URL, then the
 * locale prefix ('' for English), then the path.
 */
module JsonLd {
  import opened Wrappers
  import opened JsStrings
  import opened Localize
  import opened LocalePaths
  import opened Slugs

  const SiteUrl := "https://www.bazoocam.live"

  /** The site URL in a locale: `https://www.bazoocam.live${locale === 'en' ? '' : `/${locale}`}`. */
  function BaseUrl(locale: string): string {
    SiteUrl + LocalePrefix(locale)
  }

  /** The public URL of a post. */
  function PostUrl(locale: string, slug: string): string {
    BaseUrl(locale) + PostPath(slug)
  }

  datatype FaqItem = FaqItem(question: Text, answer: Text)

  /** `post.categoryId` once populated: its name is optional, its slug may be ''. */
  datatype Category = Category(name: Option<Text>, slug: string)

  datatype PostInput = PostInput(
    title: Text, description: Text, imageUrl: string, slug: string,
    faqs: Option<seq<FaqItem>>, category: Option<Category>)

  /** The Article schema's varying parts. `image` is absent when the post has no image URL. */
  datatype Article = Article(headline: string, description: string, image: Option<string>, pageUrl: string)

  /** One `Question` of the FAQPage schema with its accepted answer's text. */
  datatype Question = Question(name: string, answer: string)

  /** One `ListItem` of the BreadcrumbList. */
  datatype Crumb = Crumb(position: int, name: string, item: string)

  function ArticleSchema(post: PostInput, locale: string): (a: Article)
    ensures a.headline == TextIn(post.title, locale) && a.description == TextIn(post.description, locale)
    ensures a.image.None? <==> post.imageUrl == ""
    ensures a.pageUrl == PostUrl(locale, post.slug)
  {
    Article(TextIn(post.title, locale), TextIn(post.description, locale),
      if post.imageUrl == "" then None else Some(post.imageUrl), PostUrl(locale, post.slug))
  }

  function FaqQuestion(faq: FaqItem, locale: string): Question {
    Question(TextIn(faq.question, locale), TextIn(faq.answer, locale))
  }

  /** `post.faqs && post.faqs.length > 0 ? { mainEntity: post.faqs.map(...) } : null`. */
  function FaqSchema(faqs: Option<seq<FaqItem>>, locale: string): (r: Option<seq<Question>>)
    ensures r.None? <==> faqs.None? || |faqs.value| == 0
    ensures r.Some? ==> |r.value| == |faqs.value|
    ensures r.Some? ==> forall i :: 0 <= i < |r.value| ==> r.value[i] == FaqQuestion(faqs.value[i], locale)
  {
    if faqs.None? || |faqs.value| == 0 then None
    else Some(seq(|faqs.value|, i requires 0 <= i < |faqs.value| => FaqQuestion(faqs.value[i], locale)))
  }

  /** `post.categoryId?.name` is truthy: present, and not the empty string. */
  predicate HasCategoryName(category: Option<Category>) {
    category.Some? && category.value.name.Some?
    && !(category.value.name.value.Plain? && category.value.name.value.s == "")
  }

  /** The category crumb: named by the stored slug or the generated one, linked by the generated one. */
  function CategoryCrumb(c: Category, locale: string): (r: Crumb)
    requires c.name.Some?
    ensures r.position == 3
  {
    var categoryName := TextIn(c.name.value, locale);
    var generated := CreateSlug(categoryName);
    Crumb(3, if c.slug != "" then c.slug else generated, BaseUrl(locale) + "/apps/" + generated)
  }

  /** The breadcrumb trail: Home, Apps, the category when it has a name, then the post. */
  function Breadcrumbs(post: PostInput, locale: string): (r: seq<Crumb>)
    ensures |r| == (if HasCategoryName(post.category) then 4 else 3)
    ensures forall i :: 0 <= i < |r| ==> r[i].position == i + 1
  {
    var head := [Crumb(1, "Home", BaseUrl(locale)), Crumb(2, "Apps", BaseUrl(locale) + "/apps/")];
    var withCategory := if HasCategoryName(post.category) then head + [CategoryCrumb(post.category.value, locale)] else head;
    Numbered(head, withCategory, Crumb(|withCategory| + 1, TextIn(post.title, locale), PostUrl(locale, post.slug)))
  }

  /** Appending the post crumb, numbered after the crumbs before it, keeps the positions consecutive. */
  function Numbered(head: seq<Crumb>, withCategory: seq<Crumb>, last: Crumb): (r: seq<Crumb>)
    requires |head| == 2 && head[0].position == 1 && head[1].position == 2
    requires withCategory == head || (|withCategory| == 3 && withCategory[..2] == head && withCategory[2].position == 3)
    requires last.position == |withCategory| + 1
    ensures |r| == |withCategory| + 1
    ensures forall i :: 0 <= i < |r| ==> r[i].position == i + 1
  {
    assert forall i :: 0 <= i < |withCategory| ==> withCategory[i].position == i + 1 by {
      if withCategory != head {
        assert withCategory[0] == head[0] && withCategory[1] == head[1];
      }
    }
    withCategory + [last]
  }

  /** The component's `breadcrumbItems`, built by pushing onto an array. */
  method BuildBreadcrumbs(post: PostInput, locale: string) returns (items: seq<Crumb>)
    ensures items == Breadcrumbs(post, locale)
    ensures forall i :: 0 <= i < |items| ==> items[i].position == i + 1
  {
    items := [Crumb(1, "Home", BaseUrl(locale)), Crumb(2, "Apps", BaseUrl(locale) + "/apps/")];
    if HasCategoryName(post.category) {
      items := items + [CategoryCrumb(post.category.value, locale)];
    }
    items := items + [Crumb(|items| + 1, TextIn(post.title, locale), PostUrl(locale, post.slug))];
  }

  /**
   * The trail has three items without a named category and four with one; it
   * starts at Home and ends at the post, named by its title.
   */
  lemma BreadcrumbShape(post: PostInput, locale: string)
    ensures var items := Breadcrumbs(post, locale);
      && |items| == (if HasCategoryName(post.category) then 4 else 3)
      && items[0].name == "Home" && items[0].item == BaseUrl(locale)
      && items[1].name == "Apps" && items[1].item == BaseUrl(locale) + "/apps/"
      && items[|items| - 1] == Crumb(|items|, TextIn(post.title, locale), PostUrl(locale, post.slug))
  {
  }

  /** The category crumb links to the generated slug, which holds only `[a-z0-9-]`. */
  lemma CategoryCrumbLink(post: PostInput, locale: string)
    requires HasCategoryName(post.category)
    ensures var crumb := Breadcrumbs(post, locale)[2];
      var generated := CreateSlug(TextIn(post.category.value.name.value, locale));
      && crumb.item == BaseUrl(locale) + "/apps/" + generated
      && (forall c :: c in generated ==> IsSlugChar(c))
      && crumb.name == (if post.category.value.slug != "" then post.category.value.slug else generated)
  {
    CreateSlugShape(TextIn(post.category.value.name.value, locale));
  }

  /** Every URL the component emits starts with the site URL followed by the locale prefix. */
  lemma UrlsCarryLocalePrefix(post: PostInput, locale: string)
    ensures StartsWith(ArticleSchema(post, locale).pageUrl, BaseUrl(locale))
    ensures forall i :: 0 <= i < |Breadcrumbs(post, locale)| ==> StartsWith(Breadcrumbs(post, locale)[i].item, BaseUrl(locale))
    ensures BaseUrl(locale) == (if locale == "en" then SiteUrl else SiteUrl + "/" + locale)
  {
    PrefixedBy(BaseUrl(locale), PostPath(post.slug));
    forall i | 0 <= i < |Breadcrumbs(post, locale)|
      ensures StartsWith(Breadcrumbs(post, locale)[i].item, BaseUrl(locale))
    {
      CrumbUrl(post, locale, i);
    }
  }

  /** One breadcrumb's URL starts with the locale's base URL. */
  lemma CrumbUrl(post: PostInput, locale: string, i: nat)
    requires i < |Breadcrumbs(post, locale)|
    ensures StartsWith(Breadcrumbs(post, locale)[i].item, BaseUrl(locale))
  {
    var b := BaseUrl(locale);
    BreadcrumbShape(post, locale);
    if i == 0 {
      assert b[..|b|] == b;
    } else if i == 1 {
      PrefixedBy(b, "/apps/");
    } else if i == |Breadcrumbs(post, locale)| - 1 {
      PrefixedBy(b, PostPath(post.slug));
    } else {
      CategoryCrumbLink(post, locale);
      PrefixedBy(b + "/apps/", CreateSlug(TextIn(post.category.value.name.value, locale)));
      PrefixedBy(b, "/apps/");
    }
  }

  /** A string starts with anything put in front of it. */
  lemma PrefixedBy(b: string, x: string)
    ensures StartsWith(b + x, b)
    ensures forall p :: StartsWith(b, p) ==> StartsWith(b + x, p)
  {
    assert (b + x)[..|b|] == b;
  }
}
