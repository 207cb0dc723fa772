/**
 * The `Language` collection (`src/models/Language.ts`): schema setters and
 * validators, field defaults, the unique code index and the pre-save hook
 * that keeps a single default language. Document ids are naturals.
 */
module LanguageModel {
  import opened Wrappers
  import JsStrings

  datatype LanguageDoc = LanguageDoc(
    id: nat, code: string, name: string, nativeName: string, flag: string,
    isActive: bool, isDefault: bool)

  /** The fields given to `new Language({...})`; an absent boolean takes its schema default. */
  datatype LanguageInput = LanguageInput(
    code: string, name: string, nativeName: string, flag: string,
    isActive: Option<bool>, isDefault: Option<bool>)

  /** Why a save rejects: a failed validator, the unique index, or the database itself. */
  datatype SaveError = Invalid(paths: set<string>) | DuplicateCode | Unavailable

  /** What `save()` leaves in the collection and what it resolves or rejects with. */
  datatype SaveOutcome = SaveOutcome(docs: seq<LanguageDoc>, result: Result<LanguageDoc, SaveError>)

  /** The `code` setters: `lowercase` and `trim`. */
  function NormalizeCode(code: string): string {
    JsStrings.Trim(JsStrings.ToLowerAscii(code))
  }

  /** A new document: setters applied, `isActive` defaulting to true and `isDefault` to false. */
  function FromInput(id: nat, input: LanguageInput): (d: LanguageDoc)
    ensures d.id == id && d.flag == input.flag
    ensures d.isActive == (input.isActive.None? || input.isActive.value)
    ensures d.isDefault == (input.isDefault.Some? && input.isDefault.value)
  {
    LanguageDoc(id, NormalizeCode(input.code), JsStrings.Trim(input.name), JsStrings.Trim(input.nativeName),
      input.flag, input.isActive.GetOr(true), input.isDefault.GetOr(false))
  }

  /**
   * The setters of a new document: the code is lower-cased and trimmed, the
   * name and native name are trimmed.
   */
  lemma FromInputSetters(id: nat, input: LanguageInput)
    ensures FromInput(id, input).code == NormalizeCode(input.code)
    ensures FromInput(id, input).name == JsStrings.Trim(input.name)
    ensures FromInput(id, input).nativeName == JsStrings.Trim(input.nativeName)
  {
  }

  /** The paths whose validators fail: `required` rejects '', and `code` must be 2 to 5 characters. */
  function Violations(d: LanguageDoc): (r: set<string>)
    ensures r == {} <==> 2 <= |d.code| <= 5 && d.name != "" && d.nativeName != "" && d.flag != ""
    ensures r <= {"code", "name", "nativeName", "flag"}
  {
    (if |d.code| < 2 || |d.code| > 5 then {"code"} else {})
    + (if d.name == "" then {"name"} else {})
    + (if d.nativeName == "" then {"nativeName"} else {})
    + (if d.flag == "" then {"flag"} else {})
  }

  predicate CodeTaken(docs: seq<LanguageDoc>, code: string) {
    exists i :: 0 <= i < |docs| && docs[i].code == code
  }

  predicate UniqueCodes(docs: seq<LanguageDoc>) {
    forall i, j :: 0 <= i < j < |docs| ==> docs[i].code != docs[j].code
  }

  predicate UniqueIds(docs: seq<LanguageDoc>) {
    forall i, j :: 0 <= i < j < |docs| ==> docs[i].id != docs[j].id
  }

  predicate AtMostOneDefault(docs: seq<LanguageDoc>) {
    forall i, j :: 0 <= i < |docs| && 0 <= j < |docs| && docs[i].isDefault && docs[j].isDefault ==> i == j
  }

  /** `updateMany({ _id: { $ne: id } }, { isDefault: false })`. */
  function ClearOtherDefaults(docs: seq<LanguageDoc>, id: nat): (r: seq<LanguageDoc>)
    ensures |r| == |docs|
    ensures forall i :: 0 <= i < |docs| ==> r[i].isDefault == (docs[i].isDefault && docs[i].id == id)
    ensures forall i :: 0 <= i < |docs| ==> r[i] == docs[i].(isDefault := r[i].isDefault)
  {
    if |docs| == 0 then []
    else [if docs[0].id == id then docs[0] else docs[0].(isDefault := false)] + ClearOtherDefaults(docs[1..], id)
  }

  /**
   * Inserting a new document as the source orders it: validators, then the
   * pre-save hook, then the insert that the unique `code` index may reject.
   * A rejected insert keeps the hook's effect: only default flags change.
   */
  function SaveNewAsWritten(docs: seq<LanguageDoc>, d: LanguageDoc): (r: SaveOutcome)
    ensures r.result.Ok? <==> Violations(d) == {} && !CodeTaken(docs, d.code)
    ensures r.result.Ok? ==> r.result.value == d && |r.docs| == |docs| + 1 && r.docs[|docs|] == d
    ensures r.result.Err? ==> |r.docs| == |docs|
    ensures Violations(d) != {} ==> r == SaveOutcome(docs, Err(Invalid(Violations(d))))
    ensures Violations(d) == {} && CodeTaken(docs, d.code) ==> r.result == Err(DuplicateCode)
    ensures forall i :: 0 <= i < |docs| ==> r.docs[i] == docs[i].(isDefault := r.docs[i].isDefault)
    ensures forall i :: 0 <= i < |docs| ==>
      (r.docs[i].isDefault <==> docs[i].isDefault && (!d.isDefault || Violations(d) != {} || docs[i].id == d.id))
  {
    ClearKeepsCodes(docs, d.id, d.code);
    if Violations(d) != {} then SaveOutcome(docs, Err(Invalid(Violations(d))))
    else
      var hooked := if d.isDefault then ClearOtherDefaults(docs, d.id) else docs;
      if CodeTaken(hooked, d.code) then SaveOutcome(hooked, Err(DuplicateCode))
      else SaveOutcome(hooked + [d], Ok(d))
  }

  /**
   * The same save when the database fails on the insert itself: the
   * validators and the pre-save hook have already run, the document is not stored.
   */
  function SaveInsertFails(docs: seq<LanguageDoc>, d: LanguageDoc): (r: SaveOutcome)
    ensures r.result.Err? && |r.docs| == |docs|
    ensures Violations(d) == {} ==> r.result == Err(Unavailable)
    ensures forall i :: 0 <= i < |docs| ==> r.docs[i] == docs[i].(isDefault := r.docs[i].isDefault)
    ensures forall i :: 0 <= i < |docs| ==>
      (r.docs[i].isDefault <==> docs[i].isDefault && (!d.isDefault || Violations(d) != {} || docs[i].id == d.id))
  {
    if Violations(d) != {} then SaveOutcome(docs, Err(Invalid(Violations(d))))
    else SaveOutcome(if d.isDefault then ClearOtherDefaults(docs, d.id) else docs, Err(Unavailable))
  }

  /** Inserting a new document with the hook's effect kept only when the insert succeeds. */
  function SaveNew(docs: seq<LanguageDoc>, d: LanguageDoc): (r: SaveOutcome)
    ensures r.result.Ok? <==> Violations(d) == {} && !CodeTaken(docs, d.code)
    ensures r.result.Err? ==> r.docs == docs
    ensures r.result.Ok? ==> r.result.value == d && |r.docs| == |docs| + 1 && r.docs[|docs|] == d
    ensures Violations(d) == {} && CodeTaken(docs, d.code) ==> r.result == Err(DuplicateCode)
    ensures Violations(d) != {} ==> r.result == Err(Invalid(Violations(d)))
  {
    if Violations(d) != {} then SaveOutcome(docs, Err(Invalid(Violations(d))))
    else if CodeTaken(docs, d.code) then SaveOutcome(docs, Err(DuplicateCode))
    else SaveOutcome((if d.isDefault then ClearOtherDefaults(docs, d.id) else docs) + [d], Ok(d))
  }

  /** `updateMany({}, { isDefault: false })`: no record is default afterwards, nothing else changes. */
  function ClearAllDefaults(docs: seq<LanguageDoc>): (r: seq<LanguageDoc>)
    ensures |r| == |docs|
    ensures forall i :: 0 <= i < |docs| ==> r[i] == docs[i].(isDefault := false)
  {
    if |docs| == 0 then [] else [docs[0].(isDefault := false)] + ClearAllDefaults(docs[1..])
  }

  /** `findByIdAndUpdate(id, { isDefault: true })`: the record with that id becomes default, no other changes. */
  function SetDefaultById(docs: seq<LanguageDoc>, id: nat): (r: seq<LanguageDoc>)
    ensures |r| == |docs|
    ensures forall i :: 0 <= i < |docs| ==> r[i] == if docs[i].id == id then docs[i].(isDefault := true) else docs[i]
  {
    if |docs| == 0 then []
    else [if docs[0].id == id then docs[0].(isDefault := true) else docs[0]] + SetDefaultById(docs[1..], id)
  }

  /** `findOne({ code })`: the position of the first record with that code, if any. */
  function FindByCode(docs: seq<LanguageDoc>, code: string): (r: Option<nat>)
    ensures r.None? <==> !CodeTaken(docs, code)
    ensures r.Some? ==> r.value < |docs| && docs[r.value].code == code
    ensures r.Some? ==> forall j :: 0 <= j < r.value ==> docs[j].code != code
  {
    if |docs| == 0 then None
    else if docs[0].code == code then Some(0)
    else match FindByCode(docs[1..], code)
      case None => None
      case Some(i) => Some(i + 1)
  }

  lemma ClearKeepsCodes(docs: seq<LanguageDoc>, id: nat, code: string)
    ensures CodeTaken(ClearOtherDefaults(docs, id), code) == CodeTaken(docs, code)
  {
    var r := ClearOtherDefaults(docs, id);
    if CodeTaken(docs, code) {
      var i :| 0 <= i < |docs| && docs[i].code == code;
      assert r[i].code == code;
    }
    if CodeTaken(r, code) {
      var i :| 0 <= i < |r| && r[i].code == code;
      assert docs[i].code == code;
    }
  }

  /** The two orders agree whenever the code is free: only a rejected insert tells them apart. */
  lemma SaveNewAgreesWhenCodeFree(docs: seq<LanguageDoc>, d: LanguageDoc)
    requires !CodeTaken(docs, d.code)
    ensures SaveNewAsWritten(docs, d) == SaveNew(docs, d)
  {
    ClearKeepsCodes(docs, d.id, d.code);
  }

  /**
   * As written, inserting a second 'en' flagged default into a store whose
   * only default is 'en' is rejected by the index after the hook has run,
   * leaving the store with no default language at all.
   */
  lemma SaveNewAsWrittenLosesDefault()
    ensures var docs := [LanguageDoc(0, "en", "English", "English", "us", true, true)];
      var out := SaveNewAsWritten(docs, LanguageDoc(1, "en", "English", "English", "us", true, true));
      out.result == Err(DuplicateCode) && |out.docs| == 1 && !out.docs[0].isDefault
    ensures var docs := [LanguageDoc(0, "en", "English", "English", "us", true, true)];
      SaveNew(docs, LanguageDoc(1, "en", "English", "English", "us", true, true)) == SaveOutcome(docs, Err(DuplicateCode))
  {
    var docs := [LanguageDoc(0, "en", "English", "English", "us", true, true)];
    var d := LanguageDoc(1, "en", "English", "English", "us", true, true);
    assert Violations(d) == {};
    assert ClearOtherDefaults(docs, 1)[0].code == "en";
    assert docs[0].code == "en";
  }

  /** Saving a non-default document changes no existing document. */
  lemma SaveNonDefaultKeepsOthers(docs: seq<LanguageDoc>, d: LanguageDoc)
    requires !d.isDefault
    ensures SaveNew(docs, d).docs[..|docs|] == docs
  {
  }

  /**
   * The unique index and the single-default hook are invariants: a store with
   * distinct codes and at most one default keeps both, and a default document
   * that is inserted becomes the only default.
   */
  lemma {:induction false} SaveNewKeepsInvariants(docs: seq<LanguageDoc>, d: LanguageDoc)
    requires UniqueCodes(docs) && AtMostOneDefault(docs)
    requires forall i :: 0 <= i < |docs| ==> docs[i].id != d.id
    ensures UniqueCodes(SaveNew(docs, d).docs) && AtMostOneDefault(SaveNew(docs, d).docs)
    ensures SaveNew(docs, d).result.Ok? && d.isDefault ==>
      forall i :: 0 <= i < |SaveNew(docs, d).docs| ==> (SaveNew(docs, d).docs[i].isDefault <==> i == |docs|)
  {
    var out := SaveNew(docs, d).docs;
    if SaveNew(docs, d).result.Ok? {
      var hooked := if d.isDefault then ClearOtherDefaults(docs, d.id) else docs;
      assert out == hooked + [d];
      forall i, j | 0 <= i < j < |out|
        ensures out[i].code != out[j].code
      {
        if j == |docs| {
          assert out[i].code == docs[i].code;
          assert !(docs[i].code == d.code);
        } else {
          assert out[i].code == docs[i].code && out[j].code == docs[j].code;
        }
      }
      if d.isDefault {
        forall i | 0 <= i < |out|
          ensures out[i].isDefault <==> i == |docs|
        {
          if i < |docs| {
            assert out[i] == hooked[i];
          }
        }
      } else {
        forall i, j | 0 <= i < |out| && 0 <= j < |out| && out[i].isDefault && out[j].isDefault
          ensures i == j
        {
          assert i < |docs| && j < |docs|;
        }
      }
    }
  }

  /** A store whose records only lose default flags keeps unique codes and at most one default. */
  lemma FlagsClearedKeepInvariants(docs: seq<LanguageDoc>, out: seq<LanguageDoc>)
    requires UniqueCodes(docs) && AtMostOneDefault(docs) && |out| == |docs|
    requires forall i :: 0 <= i < |docs| ==> out[i] == docs[i].(isDefault := out[i].isDefault)
    requires forall i :: 0 <= i < |docs| ==> out[i].isDefault ==> docs[i].isDefault
    ensures UniqueCodes(out) && AtMostOneDefault(out)
  {
    forall i, j | 0 <= i < j < |out|
      ensures out[i].code != out[j].code
    {
      assert out[i].code == docs[i].code && out[j].code == docs[j].code;
    }
  }

  /**
   * The save as written, and the same save interrupted at the insert, keep
   * unique codes and at most one default; unlike the corrected save, a
   * rejected or failed default insert may leave no default at all.
   */
  lemma SaveNewAsWrittenKeepsInvariants(docs: seq<LanguageDoc>, d: LanguageDoc)
    requires UniqueCodes(docs) && AtMostOneDefault(docs)
    requires forall i :: 0 <= i < |docs| ==> docs[i].id != d.id
    ensures UniqueCodes(SaveNewAsWritten(docs, d).docs) && AtMostOneDefault(SaveNewAsWritten(docs, d).docs)
    ensures UniqueCodes(SaveInsertFails(docs, d).docs) && AtMostOneDefault(SaveInsertFails(docs, d).docs)
    ensures SaveNewAsWritten(docs, d).result.Ok? && d.isDefault ==>
      forall i :: 0 <= i < |SaveNewAsWritten(docs, d).docs| ==> (SaveNewAsWritten(docs, d).docs[i].isDefault <==> i == |docs|)
  {
    FlagsClearedKeepInvariants(docs, SaveInsertFails(docs, d).docs);
    if Violations(d) == {} && !CodeTaken(docs, d.code) {
      SaveNewAgreesWhenCodeFree(docs, d);
      SaveNewKeepsInvariants(docs, d);
    } else {
      FlagsClearedKeepInvariants(docs, SaveNewAsWritten(docs, d).docs);
    }
  }

  /** The setters are idempotent: normalising a stored code again changes nothing. */
  lemma NormalizeCodeIdempotent(code: string)
    ensures NormalizeCode(NormalizeCode(code)) == NormalizeCode(code)
  {
    var l := JsStrings.ToLowerAscii(code);
    var t := JsStrings.Trim(l);
    JsStrings.ToLowerAsciiNoUpper(code);
    JsStrings.TrimChars(l);
    JsStrings.ToLowerAsciiFixed(t);
    JsStrings.TrimIdempotent(l);
  }

  /** Input with no booleans takes the schema defaults: active and not default. */
  lemma FromInputDefaults(id: nat, code: string, name: string, nativeName: string, flag: string)
    ensures FromInput(id, LanguageInput(code, name, nativeName, flag, None, None)).isActive
    ensures !FromInput(id, LanguageInput(code, name, nativeName, flag, None, None)).isDefault
  {
  }

  /** The collection, with the id the next inserted document receives. */
  class LanguageStore {
    var docs: seq<LanguageDoc>
    var nextId: nat

    constructor(initial: seq<LanguageDoc>, firstFreeId: nat)
      ensures docs == initial && nextId == firstFreeId
    {
      docs := initial;
      nextId := firstFreeId;
    }

    /** `new Language(input).save()`, whose insert the database may fail (`insertFails`). */
    method Insert(input: LanguageInput, insertFails: bool) returns (r: Result<LanguageDoc, SaveError>)
      modifies this
      ensures var out := if insertFails then SaveInsertFails(old(docs), FromInput(old(nextId), input))
        else SaveNewAsWritten(old(docs), FromInput(old(nextId), input));
        docs == out.docs && r == out.result
      ensures nextId == old(nextId) + 1
    {
      var d := FromInput(nextId, input);
      var out := if insertFails then SaveInsertFails(docs, d) else SaveNewAsWritten(docs, d);
      docs := out.docs;
      r := out.result;
      nextId := nextId + 1;
    }

    method ClearDefaults()
      modifies this
      ensures docs == ClearAllDefaults(old(docs)) && nextId == old(nextId)
    {
      docs := ClearAllDefaults(docs);
    }

    method MakeDefault(id: nat)
      modifies this
      ensures docs == SetDefaultById(old(docs), id) && nextId == old(nextId)
    {
      docs := SetDefaultById(docs, id);
    }
  }
}
