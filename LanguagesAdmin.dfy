/**
 * The admin language list. Each handler asks the server first and, only
 * when the reply reports success, rewrites its local copy of the list:
 * toggling one record's active flag, making one record the default, or
 * removing a record. Set Default and Delete are offered only for records
 * that are not the default.
 */
module LanguagesAdmin {
  import opened LanguageModel

  /** The server's reply: the request threw, or the body's `success` flag. */
  datatype Reply = RequestFailed | Body(success: bool)

  predicate Succeeded(reply: Reply) {
    reply.Body? && reply.success
  }

  /** `languages.map(lang => lang._id === id ? { ...lang, isActive: !isActive } : lang)`. */
  function Toggled(langs: seq<LanguageDoc>, id: nat, isActive: bool): (r: seq<LanguageDoc>)
    ensures |r| == |langs|
    ensures forall i :: 0 <= i < |langs| ==> r[i] == if langs[i].id == id then langs[i].(isActive := !isActive) else langs[i]
  {
    seq(|langs|, i requires 0 <= i < |langs| => if langs[i].id == id then langs[i].(isActive := !isActive) else langs[i])
  }

  /** `languages.map(lang => ({ ...lang, isDefault: lang._id === id }))`. */
  function WithDefault(langs: seq<LanguageDoc>, id: nat): (r: seq<LanguageDoc>)
    ensures |r| == |langs|
    ensures forall i :: 0 <= i < |langs| ==> r[i] == langs[i].(isDefault := langs[i].id == id)
  {
    seq(|langs|, i requires 0 <= i < |langs| => langs[i].(isDefault := langs[i].id == id))
  }

  /** `languages.filter(lang => lang._id !== id)`. */
  function Without(langs: seq<LanguageDoc>, id: nat): (r: seq<LanguageDoc>)
    ensures forall x :: x in r <==> x in langs && x.id != id
    ensures |r| <= |langs|
  {
    if |langs| == 0 then []
    else
      assert langs == [langs[0]] + langs[1..];
      (if langs[0].id != id then [langs[0]] else []) + Without(langs[1..], id)
  }

  /** `handleToggleActive(id, isActive)`: the list changes only when the server reports success. */
  function ToggleActive(langs: seq<LanguageDoc>, id: nat, isActive: bool, reply: Reply): (r: seq<LanguageDoc>)
    ensures !Succeeded(reply) ==> r == langs
    ensures Succeeded(reply) ==> r == Toggled(langs, id, isActive)
  {
    if Succeeded(reply) then Toggled(langs, id, isActive) else langs
  }

  /** `handleSetDefault(id)`. */
  function SetDefault(langs: seq<LanguageDoc>, id: nat, reply: Reply): (r: seq<LanguageDoc>)
    ensures !Succeeded(reply) ==> r == langs
    ensures Succeeded(reply) ==> r == WithDefault(langs, id)
  {
    if Succeeded(reply) then WithDefault(langs, id) else langs
  }

  /** `handleDelete(id, code)`: nothing happens unless the deletion is confirmed and succeeds. */
  function Delete(langs: seq<LanguageDoc>, id: nat, confirmed: bool, reply: Reply): (r: seq<LanguageDoc>)
    ensures !(confirmed && Succeeded(reply)) ==> r == langs
    ensures confirmed && Succeeded(reply) ==> r == Without(langs, id)
  {
    if confirmed && Succeeded(reply) then Without(langs, id) else langs
  }

  /** The Set Default button and the Delete button are shown for a record. */
  predicate OffersSetDefault(lang: LanguageDoc) {
    !lang.isDefault
  }

  predicate OffersDelete(lang: LanguageDoc) {
    !lang.isDefault
  }

  predicate UniqueIds(langs: seq<LanguageDoc>) {
    forall i, j :: 0 <= i < j < |langs| ==> langs[i].id != langs[j].id
  }

  /**
   * The toggle button passes the record's own flag, so the record's flag is
   * flipped; toggling it again with the new flag restores the list.
   */
  lemma ToggleFlipsAndRestores(langs: seq<LanguageDoc>, k: nat)
    requires UniqueIds(langs) && k < |langs|
    ensures var r := Toggled(langs, langs[k].id, langs[k].isActive);
      && r[k].isActive == !langs[k].isActive
      && (forall i :: 0 <= i < |langs| && i != k ==> r[i] == langs[i])
      && Toggled(r, langs[k].id, r[k].isActive) == langs
  {
    var r := Toggled(langs, langs[k].id, langs[k].isActive);
    var back := Toggled(r, langs[k].id, r[k].isActive);
    assert forall i :: 0 <= i < |langs| ==> back[i] == langs[i];
  }

  /** With unique ids and the id present, exactly that record is the default afterwards. */
  lemma SetDefaultExactlyOne(langs: seq<LanguageDoc>, k: nat)
    requires UniqueIds(langs) && k < |langs|
    ensures var r := WithDefault(langs, langs[k].id);
      && r[k].isDefault
      && (forall i :: 0 <= i < |r| && r[i].isDefault ==> i == k)
  {
  }

  /** Deletion keeps the order of the remaining records: it distributes over concatenation. */
  lemma {:induction false} WithoutConcat(a: seq<LanguageDoc>, b: seq<LanguageDoc>, id: nat)
    ensures Without(a + b, id) == Without(a, id) + Without(b, id)
  {
    if |a| > 0 {
      assert (a + b)[0] == a[0];
      assert (a + b)[1..] == a[1..] + b;
      WithoutConcat(a[1..], b, id);
    } else {
      assert a + b == b;
    }
  }

  /** Deleting an id no record has changes nothing. */
  lemma {:induction false} WithoutAbsent(langs: seq<LanguageDoc>, id: nat)
    requires forall i :: 0 <= i < |langs| ==> langs[i].id != id
    ensures Without(langs, id) == langs
  {
    if |langs| > 0 {
      WithoutAbsent(langs[1..], id);
    }
  }

  /**
   * Delete is offered only for non-default records, so with unique ids a
   * deletion started from the list never removes the default language.
   */
  lemma DeleteKeepsDefault(langs: seq<LanguageDoc>, k: nat, confirmed: bool, reply: Reply)
    requires UniqueIds(langs) && k < |langs| && OffersDelete(langs[k])
    ensures forall x :: x in langs && x.isDefault ==> x in Delete(langs, langs[k].id, confirmed, reply)
  {
    forall x | x in langs && x.isDefault ensures x.id != langs[k].id {
      var j :| 0 <= j < |langs| && langs[j] == x;
      assert j != k;
    }
  }
}
