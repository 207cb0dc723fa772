/**
 * The pros and cons table of a post. Each side is either a plain string or a
 * per-locale map whose values are a newline-separated string or, in legacy
 * data, an array of lines. The table has one row per line of the longer side.
 */
module ProsAndCons {
  import opened Wrappers
  import opened JsStrings
  import opened Records
  import opened JsValues
  import PostsApi

  /**
   * `typeof side === 'string' ? side : (side[locale] || side['en'] || '')`.
   * Reading a property of null or undefined throws.
   */
  function SideData(side: Value, locale: string): (r: Result<Value, string>)
    ensures r.Err? <==> side.Null? || side.Undefined?
    ensures side.Str? ==> r == Ok(side)
  {
    if side.Str? then Ok(side)
    else if side.Null? || side.Undefined? then Err("TypeError")
    else Ok(Or(Or(Get(side, locale), Get(side, "en")), Str("")))
  }

  /**
   * `data.filter(item => item && item.trim())` on a legacy array: falsy items
   * are dropped, and a truthy item that is not a string has no `trim` and throws.
   */
  function ArrayLines(items: seq<Value>): (r: Result<seq<string>, string>)
    ensures r.Ok? <==> forall i :: 0 <= i < |items| ==> !Truthy(items[i]) || items[i].Str?
  {
    if |items| == 0 then Ok([])
    else if Truthy(items[0]) && !items[0].Str? then Err("TypeError")
    else match ArrayLines(items[1..])
      case Ok(rest) => Ok(PostsApi.Kept(items[0]) + rest)
      case Err(e) => Err(e)
  }

  /** When the filter does not throw, it keeps exactly the string items that are non-blank after trim. */
  lemma ArrayLinesMembers(items: seq<Value>)
    ensures ArrayLines(items).Ok? ==>
      forall x :: x in ArrayLines(items).value <==> Str(x) in items && Trim(x) != ""
  {
    ArrayLinesKept(items);
    PostsApi.KeptLinesMembers(items);
  }

  /** A single item: a non-string truthy item throws, and only a non-blank string is kept. */
  lemma ArrayLinesOne(v: Value)
    ensures ArrayLines([v]) ==
      if Truthy(v) && !v.Str? then Err("TypeError")
      else Ok(if v.Str? && Trim(v.s) != "" then [v.s] else [])
  {
    assert [v][1..] == [];
    assert ArrayLines([v][1..]) == Ok([]);
    if Truthy(v) && !v.Str? {
      assert ArrayLines([v]) == Err("TypeError");
    } else {
      var kept: seq<string> := if v.Str? && Trim(v.s) != "" then [v.s] else [];
      assert kept + [] == kept;
      assert ArrayLines([v]) == Ok(kept + []);
    }
  }

  /** The filter goes item by item: the lines kept from two runs of items follow each other. */
  lemma ArrayLinesConcat(a: seq<Value>, b: seq<Value>)
    requires ArrayLines(a).Ok? && ArrayLines(b).Ok?
    ensures ArrayLines(a + b) == Ok(ArrayLines(a).value + ArrayLines(b).value)
  {
    var ab := a + b;
    forall i | 0 <= i < |ab| ensures !Truthy(ab[i]) || ab[i].Str? {
      if i < |a| { assert ab[i] == a[i]; } else { assert ab[i] == b[i - |a|]; }
    }
    ArrayLinesKept(a);
    ArrayLinesKept(b);
    ArrayLinesKept(ab);
    PostsApi.KeptLinesConcat(a, b);
  }

  /** When the filter does not throw, it keeps what the migration keeps. */
  lemma {:induction false} ArrayLinesKept(items: seq<Value>)
    ensures ArrayLines(items).Ok? ==> ArrayLines(items) == Ok(PostsApi.KeptLines(items))
  {
    if |items| > 0 {
      ArrayLinesKept(items[1..]);
    }
  }

  // `line.replace(/^-\s*/, '')`: a dash in the first column and the white space after it.
  function StripDash(line: string): string {
    if |line| > 0 && line[0] == '-' then TrimStart(line[1..]) else line
  }

  /** One displayed item of string data: the line without its leading dash, trimmed. */
  function CleanLine(line: string): string {
    Trim(StripDash(line))
  }

  /** `lines.filter(line => line.trim())`. */
  function NonBlank(lines: seq<string>): (r: seq<string>)
    ensures |r| <= |lines|
  {
    if |lines| == 0 then []
    else KeptLine(lines[0]) + NonBlank(lines[1..])
  }

  /** What the filter keeps of one line: the line itself, or nothing. */
  function KeptLine(line: string): (r: seq<string>)
    ensures r == [] || r == [line]
  {
    if Trim(line) != "" then [line] else []
  }

  /** The lines kept are exactly those with non-white-space content. */
  lemma {:induction false} NonBlankMembers(lines: seq<string>)
    ensures forall x :: x in NonBlank(lines) <==> x in lines && Trim(x) != ""
  {
    if |lines| > 0 {
      NonBlankMembers(lines[1..]);
      assert lines == [lines[0]] + lines[1..];
    }
  }

  /** A single line is kept exactly when it has non-white-space content. */
  lemma NonBlankOne(line: string)
    ensures NonBlank([line]) == if Trim(line) != "" then [line] else []
  {
    assert [line][1..] == [];
  }

  /** The filter goes line by line, so the kept lines stay in their order. */
  lemma {:induction false} NonBlankConcat(a: seq<string>, b: seq<string>)
    ensures NonBlank(a + b) == NonBlank(a) + NonBlank(b)
  {
    if |a| == 0 {
      assert a + b == b;
    } else {
      assert (a + b)[0] == a[0] && (a + b)[1..] == a[1..] + b;
      NonBlankConcat(a[1..], b);
    }
  }

  /** With no blank line, every line is kept, in order. */
  lemma {:induction false} NonBlankKeepsAll(lines: seq<string>)
    requires forall i :: 0 <= i < |lines| ==> Trim(lines[i]) != ""
    ensures NonBlank(lines) == lines
  {
    if |lines| > 0 {
      NonBlankTail(lines);
      NonBlankKeepsAll(lines[1..]);
    }
  }

  lemma NonBlankTail(lines: seq<string>)
    requires |lines| > 0 && Trim(lines[0]) != ""
    requires forall i :: 0 <= i < |lines| ==> Trim(lines[i]) != ""
    ensures NonBlank(lines) == [lines[0]] + NonBlank(lines[1..])
    ensures forall i :: 0 <= i < |lines[1..]| ==> Trim(lines[1..][i]) != ""
  {
    assert forall i :: 0 <= i < |lines[1..]| ==> lines[1..][i] == lines[i + 1];
  }

  function CleanLines(lines: seq<string>): (r: seq<string>)
    ensures |r| == |lines|
    ensures forall i :: 0 <= i < |lines| ==> r[i] == CleanLine(lines[i])
  {
    seq(|lines|, i requires 0 <= i < |lines| => CleanLine(lines[i]))
  }

  /** String data: one item per line with non-white-space content, in order. */
  function StringLines(s: string): (r: seq<string>)
    ensures r == [] <==> Trim(s) == ""
  {
    if Trim(s) == "" then []
    else
      BlankLinesBlankText(s);
      CleanLines(NonBlank(Split(s, '\n')))
  }

  /** Every displayed item is the cleaned form of a line of the text that is not blank. */
  lemma StringLinesFromLines(s: string)
    ensures forall x :: x in StringLines(s) ==>
      exists line :: line in Split(s, '\n') && Trim(line) != "" && x == CleanLine(line)
  {
    if Trim(s) != "" {
      var lines := NonBlank(Split(s, '\n'));
      NonBlankMembers(Split(s, '\n'));
      var r := CleanLines(lines);
      forall x | x in r
        ensures exists line :: line in Split(s, '\n') && Trim(line) != "" && x == CleanLine(line)
      {
        var i :| 0 <= i < |r| && r[i] == x;
        assert lines[i] in lines;
      }
    }
  }

  /** Text whose lines are all blank is blank. */
  lemma BlankLinesBlankText(s: string)
    ensures NonBlank(Split(s, '\n')) == [] ==> Trim(s) == ""
  {
    var parts := Split(s, '\n');
    if NonBlank(parts) == [] {
      NonBlankMembers(parts);
      forall i | 0 <= i < |parts| ensures AllSpace(parts[i]) {
        assert parts[i] in parts;
        TrimEmptyIffAllSpace(parts[i]);
      }
      JoinAllSpace(parts, "\n");
      SplitJoin(s, '\n');
      assert "\n" == ['\n'];
      TrimEmptyIffAllSpace(s);
    }
  }

  /** Joining white-space pieces with a white-space separator gives white space. */
  lemma {:induction false} JoinAllSpace(parts: seq<string>, sep: string)
    requires AllSpace(sep) && forall i :: 0 <= i < |parts| ==> AllSpace(parts[i])
    ensures AllSpace(Join(parts, sep))
  {
    if |parts| > 1 {
      JoinAllSpace(parts[1..], sep);
      var rest := Join(parts[1..], sep);
      var j := parts[0] + sep + rest;
      forall k | 0 <= k < |j| ensures IsSpace(j[k]) {
        if k < |parts[0]| { assert j[k] == parts[0][k]; }
        else if k < |parts[0]| + |sep| { assert j[k] == sep[k - |parts[0]|]; }
        else { assert j[k] == rest[k - |parts[0]| - |sep|]; }
      }
    }
  }

  /** The items of one side: legacy array lines, string lines, or none. */
  function Items(data: Value): (r: Result<seq<string>, string>)
    ensures data.Array? ==> r == ArrayLines(data.items)
    ensures data.Str? ==> r == Ok(StringLines(data.s))
    ensures !data.Array? && !data.Str? ==> r == Ok([])
  {
    match data
    case Array(items) => ArrayLines(items)
    case Str(s) => Ok(StringLines(s))
    case _ => Ok([])
  }

  datatype Row = Row(pro: string, con: string)

  /** `Array.from({ length: max }, (_, i) => [pros[i] || '', cons[i] || ''])`. */
  function Rows(pros: seq<string>, cons: seq<string>): (r: seq<Row>)
    ensures |r| == if |pros| >= |cons| then |pros| else |cons|
    ensures forall i :: 0 <= i < |r| ==>
      r[i].pro == (if i < |pros| then pros[i] else "") && r[i].con == (if i < |cons| then cons[i] else "")
  {
    var n := if |pros| >= |cons| then |pros| else |cons|;
    seq(n, i requires 0 <= i < n => Row(if i < |pros| then pros[i] else "", if i < |cons| then cons[i] else ""))
  }

  /** The component: `None` is the `null` it renders when both sides are empty. */
  function Render(pros: Value, cons: Value, locale: string): (r: Result<Option<seq<Row>>, string>)
    ensures r.Err? ==> r == Err("TypeError")
    ensures r.Ok? ==> SideData(pros, locale).Ok? && SideData(cons, locale).Ok?
    ensures r.Ok? ==> (r.value.None? <==>
      Items(SideData(pros, locale).value) == Ok([]) && Items(SideData(cons, locale).value) == Ok([]))
    ensures r.Ok? && r.value.Some? ==> |r.value.value| > 0
  {
    match (SideData(pros, locale), SideData(cons, locale))
    case (Ok(p), Ok(c)) =>
      (match (Items(p), Items(c))
       case (Ok(ps), Ok(cs)) => if |ps| == 0 && |cs| == 0 then Ok(None) else Ok(Some(Rows(ps, cs)))
       case _ => Err("TypeError"))
    case _ => Err("TypeError")
  }

  /**
   * Nothing is rendered exactly when both sides have no items; otherwise the
   * table has as many rows as the longer side, row i holding item i of each
   * side or '' past its end.
   */
  lemma RenderTable(pros: Value, cons: Value, locale: string, ps: seq<string>, cs: seq<string>)
    requires SideData(pros, locale).Ok? && SideData(cons, locale).Ok?
    requires Items(SideData(pros, locale).value) == Ok(ps) && Items(SideData(cons, locale).value) == Ok(cs)
    ensures Render(pros, cons, locale).Ok?
    ensures Render(pros, cons, locale).value.None? <==> |ps| == 0 && |cs| == 0
    ensures Render(pros, cons, locale).value.Some? ==>
      var rows := Render(pros, cons, locale).value.value;
      && |rows| == (if |ps| >= |cs| then |ps| else |cs|)
      && forall i :: 0 <= i < |rows| ==> rows[i] == Row(if i < |ps| then ps[i] else "", if i < |cs| then cs[i] else "")
  {
    RenderOfItems(pros, cons, locale, ps, cs);
    RowsAt(ps, cs);
  }

  /** Row i holds item i of each side, or '' past that side's end. */
  lemma RowsAt(ps: seq<string>, cs: seq<string>)
    ensures forall i :: 0 <= i < |Rows(ps, cs)| ==>
      Rows(ps, cs)[i] == Row(if i < |ps| then ps[i] else "", if i < |cs| then cs[i] else "")
  {
  }

  /** With both sides' items known, the component returns null or the rows of the two lists. */
  lemma RenderOfItems(pros: Value, cons: Value, locale: string, ps: seq<string>, cs: seq<string>)
    requires SideData(pros, locale).Ok? && SideData(cons, locale).Ok?
    requires Items(SideData(pros, locale).value) == Ok(ps) && Items(SideData(cons, locale).value) == Ok(cs)
    ensures Render(pros, cons, locale) == if |ps| == 0 && |cs| == 0 then Ok(None) else Ok(Some(Rows(ps, cs)))
  {
  }

  /**
   * The fallback is JavaScript `||`: an empty legacy array stored under the
   * requested locale is truthy, so the English data is not consulted and the
   * side shows no items.
   */
  lemma EmptyLegacyArrayShadowsEnglish(locale: string, english: Value)
    ensures SideData(Object([(locale, Array([])), ("en", english)]), locale) == Ok(Array([]))
    ensures Items(Array([])) == Ok([])
  {
  }

  /** An empty string under the requested locale falls back to the English data. */
  lemma EmptyStringFallsBack(locale: string, english: Value)
    requires locale != "en" && Truthy(english)
    ensures SideData(Object([(locale, Str("")), ("en", english)]), locale) == Ok(english)
  {
    var side := Object([(locale, Str("")), ("en", english)]);
    assert Lookup(side.fields[1..], "en") == Some(english);
  }

  lemma TrimStartTwice(s: string)
    ensures TrimStart(TrimStart(s)) == TrimStart(s)
  {
  }

  /**
   * Only a dash in the first column is removed, together with the white space
   * after it, and then the line is trimmed; a line "-" gives ''.
   */
  lemma CleanLineDash(line: string)
    ensures |line| > 0 && line[0] == '-' ==> CleanLine(line) == Trim(line[1..])
    ensures !(|line| > 0 && line[0] == '-') ==> CleanLine(line) == Trim(line)
    ensures CleanLine("-") == ""
  {
    if |line| > 0 && line[0] == '-' {
      TrimStartTwice(line[1..]);
    }
  }

  /**
   * Legacy array data made only of strings shows the same items as the
   * listing's migration keeps: the non-blank ones, untrimmed, in order.
   */
  lemma {:induction false} ArrayMatchesMigration(items: seq<Value>)
    requires forall i :: 0 <= i < |items| ==> items[i].Str?
    ensures ArrayLines(items) == Ok(PostsApi.KeptLines(items))
  {
    if |items| > 0 {
      ArrayMatchesMigration(items[1..]);
    }
  }

  lemma JoinNotBlank(parts: seq<string>, sep: string)
    requires |parts| >= 1 && Trim(parts[0]) != ""
    ensures Trim(Join(parts, sep)) != ""
  {
    TrimEmptyIffAllSpace(parts[0]);
    var j := Join(parts, sep);
    JoinStartsWithFirst(parts, sep);
    var k :| 0 <= k < |parts[0]| && !IsSpace(parts[0][k]);
    assert j[k] == parts[0][k];
    TrimEmptyIffAllSpace(j);
  }

  /** A join starts with its first part. */
  lemma JoinStartsWithFirst(parts: seq<string>, sep: string)
    requires |parts| >= 1
    ensures |parts[0]| <= |Join(parts, sep)|
    ensures forall i :: 0 <= i < |parts[0]| ==> Join(parts, sep)[i] == parts[0][i]
  {
    if |parts| > 1 {
      assert Join(parts, sep) == parts[0] + (sep + Join(parts[1..], sep));
    }
  }

  /**
   * Migrating legacy lines to a string does not change what is shown beyond
   * the per-line clean-up: the migrated string displays the kept lines, each
   * with its leading dash removed and trimmed.
   */
  lemma MigratedDataDisplaysKeptLines(items: seq<Value>)
    requires forall x :: Str(x) in items ==> '\n' !in x
    ensures StringLines(PostsApi.MigrateProsCons(Array(items))) == CleanLines(PostsApi.KeptLines(items))
  {
    var kept := PostsApi.KeptLines(items);
    PostsApi.KeptLinesMembers(items);
    forall i | 0 <= i < |kept| ensures Trim(kept[i]) != "" && '\n' !in kept[i] {
      assert kept[i] in kept;
    }
    StringLinesOfJoin(kept);
  }

  /** Non-blank lines without newlines, joined with newlines, are displayed one item per line. */
  lemma StringLinesOfJoin(kept: seq<string>)
    requires forall i :: 0 <= i < |kept| ==> Trim(kept[i]) != "" && '\n' !in kept[i]
    ensures StringLines(Join(kept, "\n")) == CleanLines(kept)
  {
    var m := Join(kept, "\n");
    if |kept| == 0 {
      assert m == "";
      assert Trim(m) == "";
    } else {
      assert "\n" == ['\n'];
      JoinSplit(kept, '\n');
      JoinNotBlank(kept, "\n");
      NonBlankKeepsAll(kept);
    }
  }

}
