/**
 * The FAQ accordion on a post page. The set of open items starts as {0};
 * clicking an item's question toggles its index in the set, and an answer
 * is rendered only while its index is open.
 */
module FaqSection {
  import opened Wrappers
  import opened Localize
  import JsonLd

  /** `isOpen ? (openItems - {i}) : (openItems + {i})`. */
  function Toggled(open: set<int>, index: int): (r: set<int>)
    ensures index in r <==> index !in open
    ensures forall j :: j != index ==> (j in r <==> j in open)
  {
    if index in open then open - {index} else open + {index}
  }

  /** Toggling the same index twice restores the set. */
  lemma ToggleTwice(open: set<int>, index: int)
    ensures Toggled(Toggled(open, index), index) == open
  {
  }

  /** Toggles of different indices commute. */
  lemma TogglesCommute(open: set<int>, i: int, j: int)
    ensures Toggled(Toggled(open, i), j) == Toggled(Toggled(open, j), i)
  {
  }

  /** The component's `openItems` state. */
  class Accordion {
    var openItems: set<int>

    constructor()
      ensures openItems == {0}
    {
      openItems := {0};
    }

    /** `toggleItem(index)`: copy the set, then delete the index if present and add it otherwise. */
    method ToggleItem(index: int)
      modifies this
      ensures openItems == Toggled(old(openItems), index)
    {
      var newOpenItems := openItems;
      if index in newOpenItems {
        newOpenItems := newOpenItems - {index};
      } else {
        newOpenItems := newOpenItems + {index};
      }
      openItems := newOpenItems;
    }
  }

  /** One rendered item: its question, and its answer when open. */
  datatype Item = Item(question: string, answer: Option<string>)

  function RenderItem(faq: JsonLd.FaqItem, locale: string, open: bool): Item {
    Item(TextIn(faq.question, locale), if open then Some(TextIn(faq.answer, locale)) else None)
  }

  /** The accordion: `None` is the `null` rendered for an empty list. */
  function Render(faqs: seq<JsonLd.FaqItem>, locale: string, openItems: set<int>): (r: Option<seq<Item>>)
    ensures r.None? <==> |faqs| == 0
    ensures r.Some? ==> |r.value| == |faqs|
    ensures r.Some? ==> forall i :: 0 <= i < |faqs| ==>
      && r.value[i].question == TextIn(faqs[i].question, locale)
      && (r.value[i].answer.Some? <==> i in openItems)
      && (r.value[i].answer.Some? ==> r.value[i].answer.value == TextIn(faqs[i].answer, locale))
  {
    if |faqs| == 0 then None
    else Some(seq(|faqs|, i requires 0 <= i < |faqs| => RenderItem(faqs[i], locale, i in openItems)))
  }

  /** Before any click only the first answer is shown. */
  lemma InitiallyFirstOpen(faqs: seq<JsonLd.FaqItem>, locale: string)
    requires |faqs| > 0
    ensures Render(faqs, locale, {0}).value[0].answer.Some?
    ensures forall i :: 1 <= i < |faqs| ==> Render(faqs, locale, {0}).value[i].answer.None?
  {
  }

  /** Clicking an item shows or hides its answer and no other. */
  lemma ClickShowsOrHidesOne(faqs: seq<JsonLd.FaqItem>, locale: string, open: set<int>, k: nat)
    requires k < |faqs|
    ensures var before := Render(faqs, locale, open).value;
            var after := Render(faqs, locale, Toggled(open, k)).value;
      && (after[k].answer.Some? <==> before[k].answer.None?)
      && (forall i :: 0 <= i < |faqs| && i != k ==> after[i] == before[i])
  {
  }
}
