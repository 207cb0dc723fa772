/**
 * The two slug generators: the JSON-LD builder's `createSlug` and the
 * category form's `generateSlugFromName`. Each regular-expression replacement
 * is an explicit character scanner that makes the same replacements.
 * Lower-casing is ASCII only, so any other letter counts as a non-[a-z0-9]
 * character.
 */
module Slugs {
  import opened JsStrings

  predicate IsAlnum(c: char) {
    'a' <= c <= 'z' || '0' <= c <= '9'
  }

  /** The characters a slug may contain: `[a-z0-9-]`. */
  predicate IsSlugChar(c: char) {
    IsAlnum(c) || c == '-'
  }

  predicate IsHyphen(c: char) {
    c == '-'
  }

  predicate NotAlnum(c: char) {
    !IsAlnum(c)
  }

  /** No two neighbouring characters both belong to the class `inRun`. */
  predicate NoAdjacent(s: string, inRun: char -> bool) {
    forall i :: 0 <= i < |s| - 1 ==> !(inRun(s[i]) && inRun(s[i + 1]))
  }

  /** Already collapsed: every character of the class is `rep`, and none sits next to another. */
  predicate Collapsed(s: string, inRun: char -> bool, rep: char) {
    (forall i :: 0 <= i < |s| && inRun(s[i]) ==> s[i] == rep) && NoAdjacent(s, inRun)
  }

  /** The input after its leading run of `inRun` characters. */
  function DropRun(s: string, inRun: char -> bool): (r: string)
    ensures |r| <= |s| && r == s[|s| - |r|..]
    ensures |s| > 0 && inRun(s[0]) ==> |r| < |s|
    ensures |r| > 0 ==> !inRun(r[0])
  {
    if |s| > 0 && inRun(s[0]) then DropRun(s[1..], inRun) else s
  }

  /** `s.replace(/[class]+/g, rep)`: every maximal run of `inRun` characters becomes one `rep`. */
  function CollapseRuns(s: string, inRun: char -> bool, rep: char): (r: string)
    ensures |s| > 0 ==> |r| > 0 && r[0] == (if inRun(s[0]) then rep else s[0])
    decreases |s|
  {
    if |s| == 0 then ""
    else if inRun(s[0]) then
      [rep] + CollapseRuns(DropRun(s, inRun), inRun, rep)
    else [s[0]] + CollapseRuns(s[1..], inRun, rep)
  }

  /** Every character of the result is the replacement or a character of the input outside the class. */
  lemma {:induction false} CollapseRunsChars(s: string, inRun: char -> bool, rep: char)
    ensures forall i :: 0 <= i < |CollapseRuns(s, inRun, rep)| ==>
      CollapseRuns(s, inRun, rep)[i] == rep || (CollapseRuns(s, inRun, rep)[i] in s && !inRun(CollapseRuns(s, inRun, rep)[i]))
    decreases |s|
  {
    if |s| > 0 {
      var t := if inRun(s[0]) then DropRun(s, inRun) else s[1..];
      assert t == s[|s| - |t|..];
      CollapseRunsChars(t, inRun, rep);
      var c := if inRun(s[0]) then rep else s[0];
      assert CollapseRuns(s, inRun, rep) == [c] + CollapseRuns(t, inRun, rep);
      CharsCons(c, CollapseRuns(t, inRun, rep), t, s, inRun, rep);
    }
  }

  /** The step of `CollapseRunsChars`: one more allowed character in front of a result drawn from a suffix. */
  lemma CharsCons(c: char, rest: string, t: string, s: string, inRun: char -> bool, rep: char)
    requires |t| <= |s| && t == s[|s| - |t|..]
    requires c == rep || (c in s && !inRun(c))
    requires forall i :: 0 <= i < |rest| ==> rest[i] == rep || (rest[i] in t && !inRun(rest[i]))
    ensures forall i :: 0 <= i < |[c] + rest| ==> ([c] + rest)[i] == rep || (([c] + rest)[i] in s && !inRun(([c] + rest)[i]))
  {
    var r := [c] + rest;
    forall i | 0 <= i < |r| ensures r[i] == rep || (r[i] in s && !inRun(r[i])) {
      if i > 0 && r[i] != rep {
        assert r[i] == rest[i - 1];
        var j :| 0 <= j < |t| && t[j] == r[i];
        assert s[|s| - |t| + j] == r[i];
      }
    }
  }

  /** The characters of `s` outside the class `inRun`, in order. */
  function OutsideRuns(s: string, inRun: char -> bool): (r: string)
    ensures |r| <= |s|
  {
    if |s| == 0 then ""
    else (if inRun(s[0]) then "" else [s[0]]) + OutsideRuns(s[1..], inRun)
  }

  lemma {:induction false} OutsideRunsConcat(a: string, b: string, inRun: char -> bool)
    ensures OutsideRuns(a + b, inRun) == OutsideRuns(a, inRun) + OutsideRuns(b, inRun)
  {
    if |a| == 0 {
      assert a + b == b;
    } else {
      assert (a + b)[0] == a[0] && (a + b)[1..] == a[1..] + b;
      OutsideRunsConcat(a[1..], b, inRun);
    }
  }

  /** Skipping a run of class characters skips nothing outside the class. */
  lemma {:induction false} OutsideDropRun(s: string, inRun: char -> bool)
    ensures OutsideRuns(DropRun(s, inRun), inRun) == OutsideRuns(s, inRun)
  {
    if |s| > 0 && inRun(s[0]) {
      OutsideDropRun(s[1..], inRun);
    }
  }

  /**
   * Collapsing keeps every character outside the class, in order, and adds
   * none, when the replacement belongs to the class: removing the class
   * characters before and after gives the same text.
   */
  lemma {:induction false} CollapseKeepsOthers(s: string, inRun: char -> bool, rep: char)
    requires inRun(rep)
    ensures OutsideRuns(CollapseRuns(s, inRun, rep), inRun) == OutsideRuns(s, inRun)
    decreases |s|
  {
    if |s| > 0 {
      var t := if inRun(s[0]) then DropRun(s, inRun) else s[1..];
      var rest := CollapseRuns(t, inRun, rep);
      var head := if inRun(s[0]) then rep else s[0];
      assert CollapseRuns(s, inRun, rep) == [head] + rest;
      assert ([head] + rest)[1..] == rest;
      CollapseKeepsOthers(t, inRun, rep);
      if inRun(s[0]) {
        OutsideDropRun(s, inRun);
      }
    }
  }

  /** After collapsing, no two neighbouring characters belong to the class. */
  lemma {:induction false} CollapseNoAdjacent(s: string, inRun: char -> bool, rep: char)
    ensures NoAdjacent(CollapseRuns(s, inRun, rep), inRun)
    decreases |s|
  {
    if |s| > 0 {
      var t := if inRun(s[0]) then DropRun(s, inRun) else s[1..];
      CollapseNoAdjacent(t, inRun, rep);
      var rest := CollapseRuns(t, inRun, rep);
      assert CollapseRuns(s, inRun, rep) == [if inRun(s[0]) then rep else s[0]] + rest;
      if inRun(s[0]) && |t| > 0 {
        assert !inRun(rest[0]);
      }
    }
  }

  /** A collapsed string is left as it is. */
  lemma {:induction false} CollapseFixed(s: string, inRun: char -> bool, rep: char)
    requires Collapsed(s, inRun, rep)
    ensures CollapseRuns(s, inRun, rep) == s
    decreases |s|
  {
    if |s| > 0 {
      assert Collapsed(s[1..], inRun, rep) by {
        assert forall i :: 0 <= i < |s| - 1 ==> s[1..][i] == s[i + 1];
      }
      CollapseFixed(s[1..], inRun, rep);
      if inRun(s[0]) {
        assert DropRun(s, inRun) == s[1..];
      }
    }
  }

  /** Collapsing twice is collapsing once, when the replacement belongs to the class. */
  lemma CollapseIdempotent(s: string, inRun: char -> bool, rep: char)
    requires inRun(rep)
    ensures CollapseRuns(CollapseRuns(s, inRun, rep), inRun, rep) == CollapseRuns(s, inRun, rep)
  {
    CollapseNoAdjacent(s, inRun, rep);
    CollapseRunsChars(s, inRun, rep);
    CollapseFixed(CollapseRuns(s, inRun, rep), inRun, rep);
  }

  /** The longest prefix of `s` made of characters outside the class. */
  function TakeWord(s: string, inRun: char -> bool): (r: string)
    ensures |r| <= |s| && r == s[..|r|]
    ensures forall i :: 0 <= i < |r| ==> !inRun(r[i])
    ensures |r| < |s| ==> inRun(s[|r|])
    ensures |s| > 0 && !inRun(s[0]) ==> |r| > 0
  {
    if |s| > 0 && !inRun(s[0]) then [s[0]] + TakeWord(s[1..], inRun) else ""
  }

  /**
   * The words of `s`: its maximal runs of characters outside the class, in
   * order, with no empty word — what splitting at every class character and
   * dropping the empty pieces gives.
   */
  function Words(s: string, inRun: char -> bool): seq<string>
    decreases |s|
  {
    var t := DropRun(s, inRun);
    if |t| == 0 then []
    else
      var w := TakeWord(t, inRun);
      [w] + Words(t[|w|..], inRun)
  }

  /** Every word is non-empty and holds no class character. */
  lemma {:induction false} WordsShape(s: string, inRun: char -> bool)
    ensures forall k :: 0 <= k < |Words(s, inRun)| ==> |Words(s, inRun)[k]| > 0
    ensures forall k, i :: 0 <= k < |Words(s, inRun)| && 0 <= i < |Words(s, inRun)[k]| ==> !inRun(Words(s, inRun)[k][i])
    decreases |s|
  {
    var t := DropRun(s, inRun);
    if |t| > 0 {
      var w := TakeWord(t, inRun);
      var rest := t[|w|..];
      WordsShape(rest, inRun);
      assert Words(s, inRun) == [w] + Words(rest, inRun);
      ShapeCons(w, Words(rest, inRun), inRun);
    }
  }

  /** The step of `WordsShape`: a word put in front of well-formed words. */
  lemma ShapeCons(w: string, ws: seq<string>, inRun: char -> bool)
    requires |w| > 0 && forall i :: 0 <= i < |w| ==> !inRun(w[i])
    requires forall k :: 0 <= k < |ws| ==> |ws[k]| > 0
    requires forall k, i :: 0 <= k < |ws| && 0 <= i < |ws[k]| ==> !inRun(ws[k][i])
    ensures forall k :: 0 <= k < |[w] + ws| ==> |([w] + ws)[k]| > 0
    ensures forall k, i :: 0 <= k < |[w] + ws| && 0 <= i < |([w] + ws)[k]| ==> !inRun(([w] + ws)[k][i])
  {
    forall k | 0 <= k < |[w] + ws|
      ensures |([w] + ws)[k]| > 0 && forall i :: 0 <= i < |([w] + ws)[k]| ==> !inRun(([w] + ws)[k][i])
    {
      if k > 0 { assert ([w] + ws)[k] == ws[k - 1]; }
    }
  }

  /** The replacement a leading run of class characters leaves at the front. */
  function LeadRep(s: string, inRun: char -> bool, rep: char): string {
    if |s| > 0 && inRun(s[0]) then [rep] else ""
  }

  /** The replacement a trailing run leaves at the end, once some word precedes it. */
  function TrailRep(s: string, inRun: char -> bool, rep: char): string {
    if |DropRun(s, inRun)| > 0 && inRun(s[|s| - 1]) then [rep] else ""
  }

  /** Nothing is left after skipping the leading run only when every character is in the class. */
  lemma {:induction false} DropRunAll(s: string, inRun: char -> bool)
    requires DropRun(s, inRun) == ""
    ensures forall i :: 0 <= i < |s| ==> inRun(s[i])
  {
    if |s| > 0 {
      DropRunAll(s[1..], inRun);
      assert forall i :: 1 <= i < |s| ==> s[i] == s[1..][i - 1];
    }
  }

  /** A character outside the class is copied, and the scan goes on after it. */
  lemma CollapseStep(s: string, inRun: char -> bool, rep: char)
    requires |s| > 0 && !inRun(s[0])
    ensures CollapseRuns(s, inRun, rep) == [s[0]] + CollapseRuns(s[1..], inRun, rep)
  {
  }

  /** A word in front of the rest is copied, and the rest is collapsed after it. */
  lemma {:induction false} CollapseWord(w: string, rest: string, inRun: char -> bool, rep: char)
    requires forall i :: 0 <= i < |w| ==> !inRun(w[i])
    ensures CollapseRuns(w + rest, inRun, rep) == w + CollapseRuns(rest, inRun, rep)
    decreases |w|
  {
    if |w| > 0 {
      var x := w + rest;
      assert x[0] == w[0] && x[1..] == w[1..] + rest;
      CollapseStep(x, inRun, rep);
      CollapseWord(w[1..], rest, inRun, rep);
      HeadThenTail(w, CollapseRuns(rest, inRun, rep));
    } else {
      assert w + rest == rest;
    }
  }

  /** Skipping the leading run twice is skipping it once. */
  lemma DropRunTwice(s: string, inRun: char -> bool)
    ensures DropRun(DropRun(s, inRun), inRun) == DropRun(s, inRun)
  {
  }

  /** The words do not see the leading run. */
  lemma WordsDropRun(s: string, inRun: char -> bool)
    ensures Words(DropRun(s, inRun), inRun) == Words(s, inRun)
  {
    DropRunTwice(s, inRun);
  }

  /** The words of a text that starts at a word: that word, then the words of what follows it. */
  lemma WordsStep(t: string, inRun: char -> bool)
    requires |t| > 0 && !inRun(t[0])
    ensures Words(t, inRun) == [TakeWord(t, inRun)] + Words(t[|TakeWord(t, inRun)|..], inRun)
  {
    assert DropRun(t, inRun) == t;
  }

  /** The leading run becomes one replacement, or nothing when there is none. */
  lemma CollapseLead(s: string, inRun: char -> bool, rep: char)
    ensures CollapseRuns(s, inRun, rep) == LeadRep(s, inRun, rep) + CollapseRuns(DropRun(s, inRun), inRun, rep)
  {
    if |s| > 0 && inRun(s[0]) {
      assert LeadRep(s, inRun, rep) == [rep];
    } else {
      assert DropRun(s, inRun) == s;
      assert LeadRep(s, inRun, rep) == "";
      assert "" + CollapseRuns(s, inRun, rep) == CollapseRuns(s, inRun, rep);
    }
  }

  /** Joining a part in front of at least one more: the part, the separator, then the join of the rest. */
  lemma JoinCons(w: string, ws: seq<string>, sep: string)
    requires |ws| > 0
    ensures Join([w] + ws, sep) == w + sep + Join(ws, sep)
  {
    assert ([w] + ws)[1..] == ws;
  }

  /** A part joined with nothing after it is the part alone, with nothing trailing. */
  lemma JoinAlone(w: string, ws: seq<string>, sep: string)
    requires ws == []
    ensures Join([w] + ws, sep) == w
    ensures w + sep + Join(ws, sep) + "" == Join([w] + ws, sep) + sep
  {
    assert [w] + ws == [w];
  }

  /** Regrouping a concatenation of four strings. */
  lemma Regroup(a: string, b: string, c: string, d: string)
    ensures a + (b + (c + d)) == a + b + c + d
  {
  }

  /** From the start of a word, collapsing gives the words joined by the replacement, then the trailing one. */
  lemma {:induction false} CollapseFromWord(t: string, inRun: char -> bool, rep: char)
    requires |t| == 0 || !inRun(t[0])
    ensures CollapseRuns(t, inRun, rep) == Join(Words(t, inRun), [rep]) + TrailRep(t, inRun, rep)
    decreases |t|
  {
    if |t| > 0 {
      var w := TakeWord(t, inRun);
      var rest := t[|w|..];
      if |rest| == 0 {
        CollapseLastWord(t, inRun, rep);
      } else {
        var more := DropRun(rest, inRun);
        CollapseFromWord(more, inRun, rep);
        CollapseWordThenRun(t, inRun, rep);
      }
    }
  }

  /** A text that is one word collapses to itself, with no trailing replacement. */
  lemma CollapseLastWord(t: string, inRun: char -> bool, rep: char)
    requires |t| > 0 && !inRun(t[0]) && TakeWord(t, inRun) == t
    ensures CollapseRuns(t, inRun, rep) == Join(Words(t, inRun), [rep]) + TrailRep(t, inRun, rep)
  {
    assert t + "" == t;
    CollapseWord(t, "", inRun, rep);
    WordsStep(t, inRun);
    assert t[|t|..] == "";
    assert Words(t, inRun) == [t];
    assert DropRun(t, inRun) == t;
    assert TrailRep(t, inRun, rep) == "";
  }

  /**
   * A word followed by a run of class characters: the word, one replacement,
   * then whatever the text after the run collapses to.
   */
  lemma CollapseWordThenRun(t: string, inRun: char -> bool, rep: char)
    requires |t| > 0 && !inRun(t[0]) && |TakeWord(t, inRun)| < |t|
    requires var more := DropRun(t[|TakeWord(t, inRun)|..], inRun);
      CollapseRuns(more, inRun, rep) == Join(Words(more, inRun), [rep]) + TrailRep(more, inRun, rep)
    ensures CollapseRuns(t, inRun, rep) == Join(Words(t, inRun), [rep]) + TrailRep(t, inRun, rep)
  {
    var w := TakeWord(t, inRun);
    var more := DropRun(t[|w|..], inRun);
    SplitCollapse(t, inRun, rep);
    SplitWords(t, inRun);
    SplitTrail(t, inRun, rep);
    var ws := Words(more, inRun);
    var trail := TrailRep(more, inRun, rep);
    Regroup(w, [rep], Join(ws, [rep]), trail);
    if |more| == 0 {
      assert ws == [] && trail == "";
      JoinAlone(w, ws, [rep]);
    } else {
      assert |ws| > 0 by { WordsStep(more, inRun); }
      JoinCons(w, ws, [rep]);
    }
  }

  lemma SplitCollapse(t: string, inRun: char -> bool, rep: char)
    requires |t| > 0 && !inRun(t[0]) && |TakeWord(t, inRun)| < |t|
    ensures var w := TakeWord(t, inRun);
      CollapseRuns(t, inRun, rep) == w + ([rep] + CollapseRuns(DropRun(t[|w|..], inRun), inRun, rep))
  {
    var w := TakeWord(t, inRun);
    var rest := t[|w|..];
    assert t == w + rest;
    CollapseWord(w, rest, inRun, rep);
    CollapseLead(rest, inRun, rep);
    assert LeadRep(rest, inRun, rep) == [rep];
  }

  lemma SplitWords(t: string, inRun: char -> bool)
    requires |t| > 0 && !inRun(t[0])
    ensures var w := TakeWord(t, inRun);
      Words(t, inRun) == [w] + Words(DropRun(t[|w|..], inRun), inRun)
  {
    var w := TakeWord(t, inRun);
    WordsStep(t, inRun);
    WordsDropRun(t[|w|..], inRun);
  }

  lemma SplitTrail(t: string, inRun: char -> bool, rep: char)
    requires |t| > 0 && !inRun(t[0]) && |TakeWord(t, inRun)| < |t|
    ensures var more := DropRun(t[|TakeWord(t, inRun)|..], inRun);
      TrailRep(t, inRun, rep) == if |more| == 0 then [rep] else TrailRep(more, inRun, rep)
  {
    var k := |TakeWord(t, inRun)|;
    var rest := t[k..];
    var more := DropRun(rest, inRun);
    var last := t[|t| - 1];
    TrailFromWord(t, inRun, rep, last);
    SliceLast(t, k);
    if |more| == 0 {
      DropRunAll(rest, inRun);
    } else {
      DropRunLast(t, k, inRun);
      TrailFromWord(more, inRun, rep, last);
    }
  }

  /** What is left of a slice to the end after its leading run ends where the whole text ends. */
  lemma DropRunLast(t: string, k: nat, inRun: char -> bool)
    requires k < |t| && |DropRun(t[k..], inRun)| > 0
    ensures DropRun(t[k..], inRun)[|DropRun(t[k..], inRun)| - 1] == t[|t| - 1]
  {
    SliceLast(t, k);
    SuffixLast(t[k..], DropRun(t[k..], inRun));
  }

  /** A text that opens with a word and ends with `last` ends with a replacement exactly when `last` is in the class. */
  lemma TrailFromWord(t: string, inRun: char -> bool, rep: char, last: char)
    requires |t| > 0 && !inRun(t[0]) && t[|t| - 1] == last
    ensures TrailRep(t, inRun, rep) == if inRun(last) then [rep] else ""
  {
    assert DropRun(t, inRun) == t;
  }

  /** A non-empty slice to the end ends where the whole text ends. */
  lemma SliceLast(s: string, k: nat)
    requires k < |s|
    ensures |s[k..]| > 0 && s[k..][|s[k..]| - 1] == s[|s| - 1]
  {
  }

  /** A non-empty suffix ends where the whole text ends. */
  lemma SuffixLast(s: string, u: string)
    requires 0 < |u| <= |s| && u == s[|s| - |u|..]
    ensures u[|u| - 1] == s[|s| - 1]
  {
  }

  /**
   * `CollapseRuns` puts exactly one replacement between neighbouring words,
   * one in front when the text opens with the class and one at the end when
   * it closes with it after some word.
   */
  lemma CollapseWords(s: string, inRun: char -> bool, rep: char)
    ensures CollapseRuns(s, inRun, rep)
      == LeadRep(s, inRun, rep) + (Join(Words(s, inRun), [rep]) + TrailRep(s, inRun, rep))
  {
    var t := DropRun(s, inRun);
    var lead := LeadRep(s, inRun, rep);
    CollapseLead(s, inRun, rep);
    CollapseFromWord(t, inRun, rep);
    TrailDropRun(s, inRun, rep);
    WordsDropRun(s, inRun);
    var j := Join(Words(s, inRun), [rep]);
    var trail := TrailRep(s, inRun, rep);
    assert CollapseRuns(s, inRun, rep) == lead + (j + trail);
  }

  /** The trailing replacement does not see the leading run. */
  lemma TrailDropRun(s: string, inRun: char -> bool, rep: char)
    ensures TrailRep(DropRun(s, inRun), inRun, rep) == TrailRep(s, inRun, rep)
  {
    var t := DropRun(s, inRun);
    DropRunTwice(s, inRun);
    if |t| > 0 {
      SuffixLast(s, t);
    }
  }

  // ---------------------------------------------------------------------------
  // The JSON-LD builder's `createSlug`.

  lemma SlugCharNotSpace(c: char)
    ensures IsSlugChar(c) ==> !IsSpace(c)
  {
  }

  /** `.replace(/[^a-z0-9\s-]/g, '')`: keep letters, digits, white space and hyphens. */
  function KeepSlugText(s: string): (r: string)
    ensures forall c :: c in r ==> IsSlugChar(c) || IsSpace(c)
    ensures (forall c :: c in s ==> IsSlugChar(c)) ==> r == s
  {
    if |s| == 0 then ""
    else (if IsSlugChar(s[0]) || IsSpace(s[0]) then [s[0]] else []) + KeepSlugText(s[1..])
  }

  /** The stages of `createSlug` up to the hyphen collapsing, before the trim that cannot change it. */
  function CreateSlugCore(text: string): (r: string)
    ensures forall c :: c in r ==> IsSlugChar(c)
    ensures Collapsed(r, IsHyphen, '-')
  {
    var kept := KeepSlugText(ToLowerAscii(text));
    var spaced := CollapseRuns(kept, IsSpace, '-');
    CollapseRunsChars(kept, IsSpace, '-');
    assert forall c :: c in spaced ==> IsSlugChar(c) by {
      assert forall i :: 0 <= i < |spaced| ==> spaced[i] == '-' || spaced[i] in kept;
    }
    var r := CollapseRuns(spaced, IsHyphen, '-');
    CollapseRunsChars(spaced, IsHyphen, '-');
    CollapseNoAdjacent(spaced, IsHyphen, '-');
    assert forall i :: 0 <= i < |r| ==> r[i] == '-' || r[i] in spaced;
    r
  }

  /**
   * `createSlug(text)`: lower-case, drop every character outside `[a-z0-9\s-]`,
   * turn each run of white space into '-', squeeze each run of '-' to one,
   * and trim (which finds no white space left).
   */
  function CreateSlug(text: string): (r: string)
    ensures forall c :: c in r ==> IsSlugChar(c)
    ensures NoAdjacent(r, IsHyphen)
  {
    var core := CreateSlugCore(text);
    SlugTextNoSpace(core);
    TrimNoEdgeSpace(core);
    Trim(core)
  }

  /**
   * `createSlug` gives only `[a-z0-9-]` and never two hyphens in a row, and
   * applying it to its own output changes nothing.
   */
  lemma CreateSlugShape(text: string)
    ensures CreateSlug(text) == CreateSlugCore(text)
    ensures forall c :: c in CreateSlug(text) ==> IsSlugChar(c)
    ensures NoAdjacent(CreateSlug(text), IsHyphen)
    ensures CreateSlug(CreateSlug(text)) == CreateSlug(text)
  {
    var r := CreateSlugCore(text);
    SlugTextFixed(r);
    assert CreateSlug(text) == Trim(r);
  }

  /** Every stage of `createSlug` leaves a collapsed string of slug characters unchanged. */
  lemma SlugTextFixed(r: string)
    requires forall c :: c in r ==> IsSlugChar(c)
    requires Collapsed(r, IsHyphen, '-')
    ensures Trim(r) == r
    ensures CreateSlug(r) == r
  {
    SlugTextNoSpace(r);
    TrimNoEdgeSpace(r);
    ToLowerAsciiFixed(r);
    assert KeepSlugText(ToLowerAscii(r)) == r;
    CollapseFixed(r, IsSpace, '-');
    CollapseFixed(r, IsHyphen, '-');
  }

  /** Slug characters hold no white space, so the space runs are trivially collapsed. */
  lemma SlugTextNoSpace(r: string)
    requires forall c :: c in r ==> IsSlugChar(c)
    ensures forall i :: 0 <= i < |r| ==> !IsSpace(r[i])
    ensures Collapsed(r, IsSpace, '-')
  {
    forall i | 0 <= i < |r| ensures !IsSpace(r[i]) {
      assert r[i] in r;
      SlugCharNotSpace(r[i]);
    }
  }

  // ---------------------------------------------------------------------------
  // The category form's `generateSlugFromName`.

  /** `.replace(/^-|-$/g, '')`: one leading and one trailing hyphen removed. */
  function StripEdgeHyphens(s: string): (r: string)
    ensures |r| <= |s|
  {
    var t := if |s| > 0 && s[0] == '-' then s[1..] else s;
    if |t| > 0 && t[|t| - 1] == '-' then t[..|t| - 1] else t
  }

  /** The result of removing the edge hyphens is a slice of the input, starting at 0 or 1. */
  lemma StripEdgeSlice(c: string)
    ensures var off := if |c| > 0 && c[0] == '-' then 1 else 0;
            var r := StripEdgeHyphens(c);
            && off + |r| <= |c|
            && (forall i :: 0 <= i < |r| ==> r[i] == c[i + off])
            && (|r| > 0 && off + |r| < |c| ==> c[off + |r|] == '-')
            && |c| <= off + |r| + 1
  {
  }

  /** Removing the edge hyphens of a collapsed slug keeps it collapsed and leaves no hyphen at either end. */
  lemma StripEdgeShape(c: string)
    requires forall i :: 0 <= i < |c| ==> IsSlugChar(c[i])
    requires NoAdjacent(c, NotAlnum)
    ensures var r := StripEdgeHyphens(c);
            && (forall i :: 0 <= i < |r| ==> IsSlugChar(r[i]))
            && NoAdjacent(r, NotAlnum)
            && (|r| > 0 ==> r[0] != '-' && r[|r| - 1] != '-')
  {
    StripEdgeSlice(c);
    var off := if |c| > 0 && c[0] == '-' then 1 else 0;
    var r := StripEdgeHyphens(c);
    forall i | 0 <= i < |r| - 1 ensures !(NotAlnum(r[i]) && NotAlnum(r[i + 1])) {
      assert r[i] == c[i + off] && r[i + 1] == c[i + off + 1];
    }
    if |r| > 0 {
      assert r[0] == c[off];
      if off + |r| < |c| {
        assert r[|r| - 1] == c[off + |r| - 1];
      }
    }
  }

  /** Removing the edge hyphens removes no letter or digit. */
  lemma StripEdgeKeepsAlnums(c: string)
    ensures OutsideRuns(StripEdgeHyphens(c), NotAlnum) == OutsideRuns(c, NotAlnum)
  {
    var t := if |c| > 0 && c[0] == '-' then c[1..] else c;
    if |t| > 0 && t[|t| - 1] == '-' {
      var u := t[..|t| - 1];
      assert t == u + [t[|t| - 1]];
      OutsideRunsConcat(u, [t[|t| - 1]], NotAlnum);
      assert OutsideRuns([t[|t| - 1]], NotAlnum) == "" by {
        assert [t[|t| - 1]][1..] == [];
      }
    }
  }

  /**
   * The slug `generateSlugFromName` derives from a name: its letters and
   * digits are those of the lower-cased name, in order.
   */
  function CategorySlug(name: string): (r: string)
    ensures forall c :: c in r ==> IsSlugChar(c)
    ensures Collapsed(r, NotAlnum, '-')
    ensures |r| > 0 ==> r[0] != '-' && r[|r| - 1] != '-'
    ensures OutsideRuns(r, NotAlnum) == OutsideRuns(ToLowerAscii(name), NotAlnum)
  {
    var low := ToLowerAscii(name);
    var c := CollapseRuns(low, NotAlnum, '-');
    CollapseSlugChars(low);
    CollapseKeepsOthers(low, NotAlnum, '-');
    StripEdgeKeepsAlnums(c);
    StripEdgeShape(c);
    var r := StripEdgeHyphens(c);
    SlugForm(r);
    r
  }

  /** Replacing the runs outside `[a-z0-9]` by '-' leaves only slug characters, with no two hyphens together. */
  lemma CollapseSlugChars(s: string)
    ensures forall i :: 0 <= i < |CollapseRuns(s, NotAlnum, '-')| ==> IsSlugChar(CollapseRuns(s, NotAlnum, '-')[i])
    ensures NoAdjacent(CollapseRuns(s, NotAlnum, '-'), NotAlnum)
  {
    CollapseRunsChars(s, NotAlnum, '-');
    CollapseNoAdjacent(s, NotAlnum, '-');
  }

  /** Slug characters with no two hyphens together are in collapsed form. */
  lemma SlugForm(r: string)
    requires forall i :: 0 <= i < |r| ==> IsSlugChar(r[i])
    requires NoAdjacent(r, NotAlnum)
    ensures forall c :: c in r ==> IsSlugChar(c)
    ensures Collapsed(r, NotAlnum, '-')
  {
  }

  /** A join of non-empty parts opens with the first part's first character and closes with the last part's last one. */
  lemma {:induction false} JoinEnds(parts: seq<string>, sep: string)
    requires |parts| > 0 && forall k :: 0 <= k < |parts| ==> |parts[k]| > 0
    ensures var j := Join(parts, sep);
      |j| > 0 && j[0] == parts[0][0] && j[|j| - 1] == parts[|parts| - 1][|parts[|parts| - 1]| - 1]
  {
    if |parts| > 1 {
      JoinEnds(parts[1..], sep);
      assert Join(parts, sep) == parts[0] + sep + Join(parts[1..], sep);
    }
  }

  /**
   * The category slug is the name's lower-cased words joined by single
   * hyphens: every maximal run of characters outside `[a-z0-9]` between two
   * words becomes one '-', and runs at either end disappear.
   */
  lemma CategorySlugJoinsWords(name: string)
    ensures CategorySlug(name) == Join(Words(ToLowerAscii(name), NotAlnum), "-")
  {
    var low := ToLowerAscii(name);
    CollapseWords(low, NotAlnum, '-');
    var ws := Words(low, NotAlnum);
    var j := Join(ws, "-");
    if |ws| == 0 {
      assert DropRun(low, NotAlnum) == "";
    } else {
      WordsShape(low, NotAlnum);
      JoinEnds(ws, "-");
      assert j[0] != '-' && j[|j| - 1] != '-';
    }
    StripEdgeAround(LeadRep(low, NotAlnum, '-'), j, TrailRep(low, NotAlnum, '-'));
  }

  /** Removing the edge hyphens takes off a hyphen added at either end of a text that has none there. */
  lemma StripEdgeAround(lead: string, j: string, trail: string)
    requires lead == "" || lead == "-"
    requires trail == "" || trail == "-"
    requires |j| == 0 ==> trail == ""
    requires |j| > 0 ==> j[0] != '-' && j[|j| - 1] != '-'
    ensures StripEdgeHyphens(lead + (j + trail)) == j
  {
    var c := lead + (j + trail);
    var t := j + trail;
    if |lead| > 0 {
      assert c[0] == '-' && c[1..] == t;
    } else {
      assert c == t;
    }
    if |trail| > 0 {
      assert t[|t| - 1] == '-' && t[..|t| - 1] == j;
    } else {
      assert t == j;
    }
  }

  /**
   * Two letters or digits with a separator between them (`"a b"`): the slug
   * keeps both, with one hyphen between them.
   */
  lemma CategorySlugTwoWords(x: char, sepChar: char, y: char)
    requires IsAlnum(x) && IsAlnum(y) && NotAlnum(LowerChar(sepChar))
    ensures CategorySlug([x, sepChar, y]) == [x, '-', y]
  {
    LowerThree(x, sepChar, y);
    CategorySlugJoinsWords([x, sepChar, y]);
    WordsOfTwo(x, LowerChar(sepChar), y);
    JoinTwoChars(x, y);
  }

  /** Lower-casing leaves lower-case letters and digits alone. */
  lemma LowerThree(x: char, sepChar: char, y: char)
    requires IsAlnum(x) && IsAlnum(y)
    ensures ToLowerAscii([x, sepChar, y]) == [x, LowerChar(sepChar), y]
  {
  }

  /** Two one-character words joined by a hyphen. */
  lemma JoinTwoChars(x: char, y: char)
    ensures Join([[x]] + [[y]], "-") == [x, '-', y]
  {
    JoinCons([x], [[y]], "-");
    assert Join([[y]], "-") == [y];
  }

  /** The words of a letter, a separator and a letter are the two letters. */
  lemma WordsOfTwo(x: char, sepChar: char, y: char)
    requires IsAlnum(x) && IsAlnum(y) && NotAlnum(sepChar)
    ensures Words([x, sepChar, y], NotAlnum) == [[x]] + [[y]]
  {
    var low := [x, sepChar, y];
    SplitWords(low, NotAlnum);
    var w := TakeWord(low, NotAlnum);
    assert w == [x];
    var rest := low[|w|..];
    assert rest == [sepChar, y];
    var more := DropRun(rest, NotAlnum);
    assert more == [y];
    WordsOfOne(y);
    calc {
      Words(low, NotAlnum);
      [w] + Words(more, NotAlnum);
      [[x]] + [[y]];
    }
  }

  lemma WordsOfOne(y: char)
    requires IsAlnum(y)
    ensures Words([y], NotAlnum) == [[y]]
  {
    WordsStep([y], NotAlnum);
    assert TakeWord([y], NotAlnum) == [y];
    assert [y][1..] == [];
  }

  /** A string already in slug form is its own category slug. */
  lemma CategorySlugFixed(r: string)
    requires forall c :: c in r ==> IsSlugChar(c)
    requires Collapsed(r, NotAlnum, '-')
    requires |r| > 0 ==> r[0] != '-' && r[|r| - 1] != '-'
    ensures CategorySlug(r) == r
  {
    assert forall i :: 0 <= i < |r| ==> r[i] in r;
    ToLowerAsciiFixed(r);
    CollapseFixed(r, NotAlnum, '-');
    assert StripEdgeHyphens(r) == r;
  }

  /** Generating a slug from a generated slug returns it unchanged. */
  lemma CategorySlugIdempotent(name: string)
    ensures CategorySlug(CategorySlug(name)) == CategorySlug(name)
  {
    CategorySlugFixed(CategorySlug(name));
  }
}
