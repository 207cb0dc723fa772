/**
 * The "alternative applications" section of a post: a general description
 * and one card per alternative. Each alternative's description is HTML in
 * which the attribute text of every tag opening with `<a` (either case)
 * loses its `target="..."` and `rel="..."` attributes, so that links open
 * in the same tab. The general description is shown as stored.
 */
module AlternativeApps {
  import opened Wrappers
  import opened JsStrings
  import opened Localize

  /** The number of leading `\s` characters. */
  function LeadingSpaces(s: string): (n: nat)
    ensures n <= |s| && s[n..] == TrimStart(s)
  {
    |s| - |TrimStart(s)|
  }

  predicate IsQuote(c: char) {
    c == '"' || c == '\''
  }

  /** The length of the longest prefix of `s` with no quote (`[^"']*`). */
  function NonQuoteRun(s: string): (n: nat)
    ensures n <= |s|
    ensures forall i :: 0 <= i < n ==> !IsQuote(s[i])
    ensures n < |s| ==> IsQuote(s[n])
  {
    if |s| == 0 || IsQuote(s[0]) then 0 else 1 + NonQuoteRun(s[1..])
  }

  /** A match found `k` characters further on. */
  function Shift(k: nat, m: Option<nat>): (r: Option<nat>)
    ensures r.Some? <==> m.Some?
    ensures r.Some? ==> r.value == m.value + k
  {
    if m.Some? then Some(m.value + k) else None
  }

  /** `["'][^"']*["']` after optional `\s*`: the length matched at the start of `s`. */
  function QuotedValue(s: string): (r: Option<nat>)
    ensures r.Some? ==> 2 <= r.value <= |s|
  {
    var k := LeadingSpaces(s);
    if k < |s| && IsQuote(s[k]) then
      var d := k + 1 + NonQuoteRun(s[k + 1..]);
      if d < |s| then Some(d + 1) else None
    else None
  }

  /** `\s*=\s*["'][^"']*["']` at the start of `s`. */
  function EqualsThenValue(s: string): (r: Option<nat>)
    ensures r.Some? ==> 3 <= r.value <= |s|
  {
    var k := LeadingSpaces(s);
    if k < |s| && s[k] == '=' then Shift(k + 1, QuotedValue(s[k + 1..])) else None
  }

  /** The attribute name, in any case, then its value, at the start of `s`. */
  function NameThenValue(s: string, name: string): (r: Option<nat>)
    ensures r.Some? ==> |name| + 3 <= r.value <= |s|
  {
    if |name| <= |s| && ToLowerAscii(s[..|name|]) == name then Shift(|name|, EqualsThenValue(s[|name|..]))
    else None
  }

  /**
   * The length of the match of `/\s*NAME\s*=\s*["'][^"']*["']/i` at the
   * start of `s`, for a lower-case `name`. The quotes on either side need
   * not be the same character.
   */
  function AttrMatch(s: string, name: string): (r: Option<nat>)
    ensures r.Some? ==> |name| < r.value <= |s|
  {
    Shift(LeadingSpaces(s), NameThenValue(s[LeadingSpaces(s)..], name))
  }

  /** No position of `s` starts an attribute `name`. */
  predicate NoAttr(s: string, name: string) {
    forall p {:trigger AttrMatch(s[p..], name)} :: 0 <= p < |s| ==> AttrMatch(s[p..], name).None?
  }

  lemma NoAttrTail(s: string, name: string)
    requires |s| > 0
    ensures NoAttr(s, name) <==> AttrMatch(s, name).None? && NoAttr(s[1..], name)
  {
    assert s[0..] == s;
    if NoAttr(s, name) {
      forall p | 0 <= p < |s[1..]| ensures AttrMatch(s[1..][p..], name).None? {
        assert s[1..][p..] == s[p + 1..];
      }
    }
    if AttrMatch(s, name).None? && NoAttr(s[1..], name) {
      forall p | 1 <= p < |s| ensures AttrMatch(s[p..], name).None? {
        assert s[1..][p - 1..] == s[p..];
      }
    }
  }

  /**
   * `s.replace(regex, '')` with the global flag: a match is dropped and the
   * scan resumes after it; elsewhere one character is kept and the scan
   * moves on. Nothing changes exactly when no position starts a match.
   */
  function RemoveAttr(s: string, name: string): (r: string)
    ensures |r| <= |s|
    ensures |r| == |s| <==> NoAttr(s, name)
    ensures NoAttr(s, name) ==> r == s
    decreases |s|
  {
    if |s| == 0 then ""
    else
      NoAttrTail(s, name);
      match AttrMatch(s, name)
      case Some(n) => RemoveAttr(s[n..], name)
      case None => [s[0]] + RemoveAttr(s[1..], name)
  }

  /** The callback's two chained replacements, applied once. */
  function CleanAttributes(attrs: string): (r: string)
    ensures |r| <= |attrs|
    ensures |r| == |attrs| ==> NoAttr(attrs, "target")
    ensures NoAttr(attrs, "target") && NoAttr(attrs, "rel") ==> r == attrs
  {
    RemoveAttr(RemoveAttr(attrs, "target"), "rel")
  }

  /** A text in which the first letter of `name` never occurs, in either case, holds no such attribute. */
  lemma NoFirstLetterNoAttr(s: string, name: string)
    requires |name| > 0 && forall i :: 0 <= i < |s| ==> LowerChar(s[i]) != name[0]
    ensures NoAttr(s, name)
  {
    forall p | 0 <= p < |s| ensures AttrMatch(s[p..], name).None? {
      var t := s[p..][LeadingSpaces(s[p..])..];
      if |name| <= |t| {
        assert ToLowerAscii(t[..|name|])[0] == LowerChar(t[0]);
        assert t[0] == s[p + LeadingSpaces(s[p..])];
      }
    }
  }

  /** The steps of the example below, one text each. */
  lemma ExampleHasNoTarget(s: string)
    requires s == " rerel=\"x\"l=\"y\""
    ensures RemoveAttr(s, "target") == s
  {
    assert forall i :: 0 <= i < |s| ==> s[i] in s;
    NoFirstLetterNoAttr(s, "target");
  }

  /** A text that starts, after no space, with a letter other than `name`'s at place `k` holds no attribute there. */
  lemma LetterDiffers(u: string, name: string, k: nat)
    requires k < |name| && k < |u| && !IsSpace(u[0]) && LowerChar(u[k]) != name[k]
    ensures AttrMatch(u, name).None?
  {
    assert LeadingSpaces(u) == 0;
    assert u[0..] == u;
    if |name| <= |u| {
      assert ToLowerAscii(u[..|name|])[k] == LowerChar(u[k]);
    }
  }

  /** `rel="x"` at the start of a text, with anything after it: a seven-character match. */
  lemma RelAt(u: string)
    requires |u| >= 7 && u[..3] == "rel" && u[3] == '=' && IsQuote(u[4]) && !IsQuote(u[5]) && IsQuote(u[6])
    ensures AttrMatch(u, "rel") == Some(7)
  {
    NoLeadingSpace(u);
    assert u[0..] == u;
    assert ToLowerAscii(u[..3]) == "rel" by {
      ToLowerAsciiFixed(u[..3]);
    }
    EqualsAt(u[3..]);
  }

  /** A text opening with a letter, `=` or a quote has no leading white space. */
  lemma NoLeadingSpace(s: string)
    requires |s| > 0 && ('a' <= s[0] <= 'z' || s[0] == '=' || IsQuote(s[0]))
    ensures LeadingSpaces(s) == 0
  {
    assert !IsSpace(s[0]);
  }

  /** `="x"` at the start of a text: a four-character match. */
  lemma EqualsAt(e: string)
    requires |e| >= 4 && e[0] == '=' && IsQuote(e[1]) && !IsQuote(e[2]) && IsQuote(e[3])
    ensures EqualsThenValue(e) == Some(4)
  {
    NoLeadingSpace(e);
    QuotedAt(e[1..]);
  }

  /** `"x"` at the start of a text: a three-character match. */
  lemma QuotedAt(q: string)
    requires |q| >= 3 && IsQuote(q[0]) && !IsQuote(q[1]) && IsQuote(q[2])
    ensures QuotedValue(q) == Some(3)
  {
    NoLeadingSpace(q);
    assert NonQuoteRun(q[1..]) == 1 by {
      assert q[1..][1..][0] == q[2];
    }
  }

  lemma ExampleTail(u: string)
    requires u == "l=\"y\""
    ensures NoAttr(u, "rel")
  {
    assert forall i :: 0 <= i < |u| ==> u[i] in u;
    NoFirstLetterNoAttr(u, "rel");
  }

  lemma ExampleResult(t: string)
    requires t == " rel=\"y\""
    ensures AttrMatch(t, "rel") == Some(8)
  {
    assert IsSpace(t[0]);
    assert t[1..][..3] == "rel";
    RelAt(t[1..]);
    AttrMatchAfterSpace(t, "rel");
  }

  lemma ExampleJoin(s: string, t: string)
    requires s == " rerel=\"x\"l=\"y\"" && t == " rel=\"y\""
    ensures [s[0]] + ([s[1]] + ([s[2]] + s[10..])) == t
  {
    assert s[10..] == t[3..];
  }

  lemma LeadingSpaceCounted(s: string)
    requires |s| > 0 && IsSpace(s[0])
    ensures LeadingSpaces(s) == LeadingSpaces(s[1..]) + 1
    ensures s[LeadingSpaces(s)..] == s[1..][LeadingSpaces(s[1..])..]
  {
    assert TrimStart(s) == TrimStart(s[1..]);
  }

  lemma ShiftShift(k: nat, m: Option<nat>)
    ensures Shift(k + 1, m) == Shift(1, Shift(k, m))
  {
  }

  /** A leading space only moves a match one place further. */
  lemma AttrMatchAfterSpace(s: string, name: string)
    requires |s| > 0 && IsSpace(s[0])
    ensures AttrMatch(s, name) == Shift(1, AttrMatch(s[1..], name))
  {
    LeadingSpaceCounted(s);
    ShiftShift(LeadingSpaces(s[1..]), NameThenValue(s[LeadingSpaces(s)..], name));
  }

  /** One step of the scan where no attribute starts: the character is kept. */
  lemma RemoveAttrKeeps(u: string, name: string)
    requires |u| > 0 && AttrMatch(u, name).None?
    ensures RemoveAttr(u, name) == [u[0]] + RemoveAttr(u[1..], name)
  {
  }

  /** One step of the scan where an attribute starts: it is dropped. */
  lemma RemoveAttrDrops(u: string, name: string, n: nat)
    requires |u| > 0 && AttrMatch(u, name) == Some(n)
    ensures RemoveAttr(u, name) == RemoveAttr(u[n..], name)
  {
  }

  /**
   * A single pass can join the text around a removed attribute into a new
   * one: the cleaned text of ` rerel="x"l="y"` is ` rel="y"`, which is
   * again a `rel` attribute.
   */
  lemma SinglePassLeavesRel(s: string, t: string)
    requires s == " rerel=\"x\"l=\"y\"" && t == " rel=\"y\""
    ensures CleanAttributes(s) == t
    ensures AttrMatch(CleanAttributes(s), "rel") == Some(8)
  {
    ExampleHasNoTarget(s);
    ExampleMatches(s);
    RemoveThreeKeptThenDrop(s, "rel");
    ExampleJoin(s, t);
    ExampleResult(t);
  }

  /** Where the example's `rel` passes look: nothing at the first three places, `rel="x"` at the fourth, nothing after it. */
  lemma ExampleMatches(s: string)
    requires s == " rerel=\"x\"l=\"y\""
    ensures AttrMatch(s, "rel").None? && AttrMatch(s[1..], "rel").None? && AttrMatch(s[2..], "rel").None?
    ensures AttrMatch(s[3..], "rel") == Some(7)
    ensures NoAttr(s[10..], "rel")
  {
    ExampleMisses(s);
    ExampleSlices(s);
    ExampleRel(s[3..]);
    assert s[3..][7..] == s[10..];
  }

  lemma ExampleSlices(s: string)
    requires s == " rerel=\"x\"l=\"y\""
    ensures s[3..] == "rel=\"x\"l=\"y\""
  {
    assert s == " re" + "rel=\"x\"l=\"y\"";
  }

  /** The example from its `rel`: a seven-character match, then nothing. */
  lemma ExampleRel(u: string)
    requires u == "rel=\"x\"l=\"y\""
    ensures AttrMatch(u, "rel") == Some(7)
    ensures NoAttr(u[7..], "rel")
  {
    assert u[..3] == "rel";
    RelAt(u);
    ExampleTail(u[7..]);
  }

  /** The example's first three places: a space before `re`, then `r` and `e` where `rel` needs other letters. */
  lemma ExampleMisses(s: string)
    requires |s| >= 4 && IsSpace(s[0]) && s[1] == 'r' && s[2] == 'e' && s[3] == 'r'
    ensures AttrMatch(s, "rel").None? && AttrMatch(s[1..], "rel").None? && AttrMatch(s[2..], "rel").None?
  {
    assert !IsSpace(s[1]) && !IsSpace(s[2]);
    LetterDiffers(s[1..], "rel", 2);
    AttrMatchAfterSpace(s, "rel");
    LetterDiffers(s[2..], "rel", 0);
  }

  /** Three places without a match, then a seven-character match, then a clean rest: the match is cut out. */
  lemma RemoveThreeKeptThenDrop(s: string, name: string)
    requires |s| >= 10
    requires AttrMatch(s, name).None? && AttrMatch(s[1..], name).None? && AttrMatch(s[2..], name).None?
    requires AttrMatch(s[3..], name) == Some(7) && NoAttr(s[10..], name)
    ensures RemoveAttr(s, name) == [s[0]] + ([s[1]] + ([s[2]] + s[10..]))
  {
    var rest := s[10..];
    assert RemoveAttr(s[3..], name) == rest by {
      assert s[3..][7..] == rest;
      RemoveAttrDrops(s[3..], name, 7);
    }
    assert RemoveAttr(s[2..], name) == [s[2]] + rest by {
      assert s[2..][1..] == s[3..];
      RemoveAttrKeeps(s[2..], name);
    }
    assert RemoveAttr(s[1..], name) == [s[1]] + ([s[2]] + rest) by {
      assert s[1..][1..] == s[2..];
      RemoveAttrKeeps(s[1..], name);
    }
    RemoveAttrKeeps(s, name);
  }

  /** The cleanup the comment asks for: the two removals repeated until neither finds anything. */
  function CleanAttributesFixed(attrs: string): (r: string)
    ensures NoAttr(r, "target") && NoAttr(r, "rel")
    ensures |r| <= |attrs|
    ensures NoAttr(attrs, "target") && NoAttr(attrs, "rel") ==> r == attrs
    decreases |attrs|
  {
    var t := CleanAttributes(attrs);
    if |t| == |attrs| then
      assert |RemoveAttr(attrs, "target")| == |attrs|;
      attrs
    else CleanAttributesFixed(t)
  }

  /** Where one pass already removes every attribute, the repeated cleanup agrees with it. */
  lemma FixedAgreesWithSinglePass(attrs: string)
    requires NoAttr(CleanAttributes(attrs), "target") && NoAttr(CleanAttributes(attrs), "rel")
    ensures CleanAttributesFixed(attrs) == CleanAttributes(attrs)
  {
  }

  /**
   * `html.replace(/<a([^>]*?)>/gi, (m, attrs) => `<a${clean(attrs)}>`)`: the
   * opening `<a` or `<A` and the text up to the first `>` are rewritten, with
   * a lower-case `a`; everything else is copied.
   */
  function CleanLinksWith(html: string, clean: string -> string): (r: string)
    ensures '<' !in html ==> r == html
    decreases |html|
  {
    if |html| < 2 then html
    else if html[0] == '<' && LowerChar(html[1]) == 'a' && '>' in html[2..] then
      var close := IndexOfChar(html[2..], '>') + 2;
      "<a" + clean(html[2..close]) + ">" + CleanLinksWith(html[close + 1..], clean)
    else
      assert '<' !in html ==> '<' !in html[1..];
      [html[0]] + CleanLinksWith(html[1..], clean)
  }

  /** A cleanup that never lengthens the attributes never lengthens the HTML. */
  lemma {:induction false} CleanLinksShrinks(html: string, clean: string -> string)
    requires forall a :: |clean(a)| <= |a|
    ensures |CleanLinksWith(html, clean)| <= |html|
    decreases |html|
  {
    if |html| >= 2 {
      if html[0] == '<' && LowerChar(html[1]) == 'a' && '>' in html[2..] {
        var close := IndexOfChar(html[2..], '>') + 2;
        CleanLinksShrinks(html[close + 1..], clean);
      } else {
        CleanLinksShrinks(html[1..], clean);
      }
    }
  }

  /** `cleanLinksFromHtml` as written. */
  function CleanLinksAsWritten(html: string): (r: string)
    ensures '<' !in html ==> r == html
    ensures |r| <= |html|
  {
    assert forall a :: |CleanAttributes(a)| <= |a|;
    CleanLinksShrinks(html, CleanAttributes);
    CleanLinksWith(html, CleanAttributes)
  }

  /** `cleanLinksFromHtml` with the repeated cleanup. */
  function CleanLinks(html: string): (r: string)
    ensures '<' !in html ==> r == html
    ensures |r| <= |html|
  {
    assert forall a :: |CleanAttributesFixed(a)| <= |a|;
    CleanLinksShrinks(html, CleanAttributesFixed);
    CleanLinksWith(html, CleanAttributesFixed)
  }

  /** Text before the first `<` is copied unchanged. */
  lemma {:induction false} TextCopied(t: string, rest: string, clean: string -> string)
    requires '<' !in t
    ensures CleanLinksWith(t + rest, clean) == t + CleanLinksWith(rest, clean)
    decreases |t|
  {
    if |t| > 0 {
      assert t[0] in t;
      TextStep(t, rest, clean);
      TextCopied(t[1..], rest, clean);
      HeadThenTail(t, CleanLinksWith(rest, clean));
    } else {
      assert t + rest == rest;
    }
  }

  /** A character other than '<' in front is copied, and the scan goes on with the next one. */
  lemma TextStep(t: string, rest: string, clean: string -> string)
    requires |t| > 0 && t[0] != '<'
    ensures CleanLinksWith(t + rest, clean) == [t[0]] + CleanLinksWith(t[1..] + rest, clean)
  {
    var html := t + rest;
    assert html[0] == t[0];
    assert html[1..] == t[1..] + rest;
    if |html| < 2 {
      assert rest == [] && html == t && t[1..] + rest == [];
    }
  }

  /** An opening tag starting with `<a` or `<A` is rewritten, and the scan resumes after its `>`. */
  lemma AnchorRewritten(a: char, attrs: string, rest: string, clean: string -> string)
    requires a == 'a' || a == 'A'
    requires '>' !in attrs
    ensures CleanLinksWith(['<', a] + attrs + ">" + rest, clean) == "<a" + clean(attrs) + ">" + CleanLinksWith(rest, clean)
  {
    var html := ['<', a] + attrs + ">" + rest;
    assert html[2..] == attrs + ['>'] + rest;
    IndexOfCharAfter(attrs, '>', rest);
    var close := IndexOfChar(html[2..], '>') + 2;
    assert close == |attrs| + 2;
    assert html[2..close] == attrs;
    assert html[close + 1..] == rest;
  }

  /**
   * A `<` that does not open an anchor (it is not followed by `a` or `A`, or
   * no `>` comes later) is copied, and the scan resumes right after it.
   */
  lemma OtherTagCopied(rest: string, clean: string -> string)
    requires |rest| == 0 || (rest[0] != 'a' && rest[0] != 'A') || '>' !in rest[1..]
    ensures CleanLinksWith("<" + rest, clean) == "<" + CleanLinksWith(rest, clean)
  {
    var html := "<" + rest;
    assert html[1..] == rest;
    if |rest| > 0 {
      assert html[1] == rest[0] && html[2..] == rest[1..];
    } else {
      assert html == "<";
    }
  }

  /** With the repeated cleanup, no rewritten tag keeps a `target` or `rel` attribute. */
  lemma CleanAnchorHasNoTargetOrRel(attrs: string, rest: string)
    requires '>' !in attrs
    ensures var out := CleanLinks("<a" + attrs + ">" + rest);
      && out == "<a" + CleanAttributesFixed(attrs) + ">" + CleanLinks(rest)
      && NoAttr(CleanAttributesFixed(attrs), "target")
      && NoAttr(CleanAttributesFixed(attrs), "rel")
  {
    assert "<a" + attrs == ['<', 'a'] + attrs;
    AnchorRewritten('a', attrs, rest, CleanAttributesFixed);
  }

  /** An alternative: its name and description, each a string or per locale. */
  datatype Alternative = Alternative(name: Text, description: Text)

  datatype Card = Card(name: string, descriptionHtml: string)

  datatype Section = Section(general: Option<string>, cards: seq<Card>)

  /** `typeof d === 'string' ? d : (d?.[locale] || d?.['en'] || '')`. */
  function GeneralDescription(d: Option<Text>, locale: string): (r: string)
    ensures d.None? ==> r == ""
    ensures d.Some? ==> r == TextIn(d.value, locale)
  {
    match d
    case None => ""
    case Some(t) => TextIn(t, locale)
  }

  /**
   * The section: the general description when non-empty, shown as stored,
   * then one card per alternative with its name and its description cleaned
   * by `cleanLinksFromHtml` as written (one pass of each removal).
   */
  function Render(alternatives: seq<Alternative>, description: Option<Text>, locale: string): (s: Section)
    ensures s.general.Some? <==> GeneralDescription(description, locale) != ""
    ensures s.general.Some? ==> s.general.value == GeneralDescription(description, locale)
    ensures |s.cards| == |alternatives|
    ensures forall i :: 0 <= i < |alternatives| ==>
      && s.cards[i].name == TextIn(alternatives[i].name, locale)
      && s.cards[i].descriptionHtml == CleanLinksAsWritten(TextIn(alternatives[i].description, locale))
  {
    RenderWith(alternatives, description, locale, CleanAttributes)
  }

  /** The section as it would be with the repeated cleanup. */
  function RenderCorrected(alternatives: seq<Alternative>, description: Option<Text>, locale: string): (s: Section)
    ensures s.general == Render(alternatives, description, locale).general
    ensures |s.cards| == |alternatives|
    ensures forall i :: 0 <= i < |alternatives| ==>
      && s.cards[i].name == Render(alternatives, description, locale).cards[i].name
      && s.cards[i].descriptionHtml == CleanLinks(TextIn(alternatives[i].description, locale))
  {
    RenderWith(alternatives, description, locale, CleanAttributesFixed)
  }

  /** The section with a given attribute cleanup. */
  function RenderWith(alternatives: seq<Alternative>, description: Option<Text>, locale: string, clean: string -> string): Section {
    var general := GeneralDescription(description, locale);
    Section(if general != "" then Some(general) else None,
            seq(|alternatives|, i requires 0 <= i < |alternatives| =>
              Card(TextIn(alternatives[i].name, locale), CleanLinksWith(TextIn(alternatives[i].description, locale), clean))))
  }

  /**
   * On the site, a card whose description is the link `<a rerel="x"l="y">`
   * shows `<a rel="y">`: the link keeps a `rel` attribute. With the repeated
   * cleanup it keeps none.
   */
  lemma SiteCardKeepsRel(name: Text, attrs: string, cleaned: string, locale: string)
    requires attrs == " rerel=\"x\"l=\"y\"" && cleaned == " rel=\"y\""
    ensures var alts := [Alternative(name, Plain("<a" + attrs + ">"))];
      && Render(alts, None, locale).cards[0].descriptionHtml == "<a" + cleaned + ">"
      && AttrMatch(cleaned, "rel").Some?
      && RenderCorrected(alts, None, locale).cards[0].descriptionHtml == "<a" + CleanAttributesFixed(attrs) + ">"
      && NoAttr(CleanAttributesFixed(attrs), "rel")
  {
    ExampleHasNoClose(attrs);
    SinglePassLeavesRel(attrs, cleaned);
    AnchorAlone(attrs, CleanAttributes);
    AnchorAlone(attrs, CleanAttributesFixed);
  }

  lemma ExampleHasNoClose(attrs: string)
    requires attrs == " rerel=\"x\"l=\"y\""
    ensures '>' !in attrs
  {
    assert forall i :: 0 <= i < |attrs| ==> attrs[i] != '>';
  }

  /** A description that is one `<a …>` tag alone is that tag with its attributes cleaned. */
  lemma AnchorAlone(attrs: string, clean: string -> string)
    requires '>' !in attrs
    ensures CleanLinksWith("<a" + attrs + ">", clean) == "<a" + clean(attrs) + ">"
  {
    assert "<a" + attrs + ">" == ['<', 'a'] + attrs + ">" + "";
    AnchorRewritten('a', attrs, "", clean);
    assert "<a" + clean(attrs) + ">" + "" == "<a" + clean(attrs) + ">";
  }

  /**
   * Only the alternatives' descriptions are cleaned: a general description
   * that sets a target keeps it.
   */
  lemma GeneralDescriptionNotCleaned(html: string, locale: string)
    requires html != ""
    ensures Render([], Some(Plain(html)), locale).general == Some(html)
  {
  }
}
