/**
 * The "add language" admin page: the dotted-key flattening of the nested
 * translation tree shown in its translation tab, the inverse unflattening,
 * the preset shortcut, and what the form finally posts.
 */
module NewLanguagePage {
  import opened Wrappers
  import opened Records
  import opened JsStrings
  import opened JsValues

  /** The key of a property below `prefix`: `prefix ? prefix + '.' + key : key`. */
  function ChildKey(prefix: string, key: string): string {
    if prefix != "" then prefix + "." + key else key
  }

  /** `Object.assign(target, source)`: every property of `source`, in order, assigned onto `target`. */
  function Assign(target: Record<string>, source: Record<string>): Record<string>
    decreases |source|
  {
    if |source| == 0 then target else Assign(Put(target, source[0].0, source[0].1), source[1..])
  }

  /** `Object.assign` onto an object keeps its keys distinct. */
  lemma {:induction false} AssignDistinct(target: Record<string>, source: Record<string>)
    requires DistinctKeys(target)
    ensures DistinctKeys(Assign(target, source))
    decreases |source|
  {
    if |source| > 0 {
      PutKeys(target, source[0].0, source[0].1);
      AssignDistinct(Put(target, source[0].0, source[0].1), source[1..]);
    }
  }

  /**
   * `flattenObject(obj, prefix)` from the `i`-th own property of `obj` on,
   * adding to `acc`: plain objects are descended into, every other value
   * (arrays, null, primitives) becomes the leaf `String(value)`.
   */
  function FlatInto(acc: Record<string>, obj: Value, i: nat, prefix: string): Record<string>
    requires obj.Object? && i <= |obj.fields|
    decreases obj, |obj.fields| - i
  {
    if i == |obj.fields| then acc
    else
      var key := obj.fields[i].0;
      var value := obj.fields[i].1;
      var newKey := ChildKey(prefix, key);
      var acc' := if value.Object? then Assign(acc, FlatInto([], value, 0, newKey)) else Put(acc, newKey, ToStr(value));
      FlatInto(acc', obj, i + 1, prefix)
  }

  /** `flattenObject(obj, prefix)`. */
  function Flatten(obj: Value, prefix: string): (r: Record<string>)
    requires obj.Object?
    ensures DistinctKeys(r)
    ensures |obj.fields| == 0 ==> r == []
  {
    FlatIntoDistinct([], obj, 0, prefix);
    FlatInto([], obj, 0, prefix)
  }

  /** Each flattened key is assigned with `Put` or `Object.assign`, so no key occurs twice. */
  lemma {:induction false} FlatIntoDistinct(acc: Record<string>, obj: Value, i: nat, prefix: string)
    requires obj.Object? && i <= |obj.fields| && DistinctKeys(acc)
    ensures DistinctKeys(FlatInto(acc, obj, i, prefix))
    decreases obj, |obj.fields| - i
  {
    if i < |obj.fields| {
      var newKey := ChildKey(prefix, obj.fields[i].0);
      var value := obj.fields[i].1;
      if value.Object? {
        FlatIntoDistinct([], value, 0, newKey);
        AssignDistinct(acc, FlatInto([], value, 0, newKey));
        FlatIntoDistinct(Assign(acc, FlatInto([], value, 0, newKey)), obj, i + 1, prefix);
      } else {
        PutKeys(acc, newKey, ToStr(value));
        FlatIntoDistinct(Put(acc, newKey, ToStr(value)), obj, i + 1, prefix);
      }
    }
  }

  /** `flattenObject`, walking the properties with a loop and recursing into nested objects. */
  method FlattenObject(obj: Value, prefix: string) returns (flattened: Record<string>)
    requires obj.Object?
    ensures flattened == Flatten(obj, prefix)
    decreases obj
  {
    flattened := [];
    var i := 0;
    while i < |obj.fields|
      invariant i <= |obj.fields|
      invariant FlatInto(flattened, obj, i, prefix) == Flatten(obj, prefix)
    {
      var key := obj.fields[i].0;
      var value := obj.fields[i].1;
      var newKey := ChildKey(prefix, key);
      FlatIntoOne(flattened, obj, i, prefix);
      if value.Object? {
        var nested := FlattenObject(value, newKey);
        flattened := Assign(flattened, nested);
      } else {
        flattened := Put(flattened, newKey, ToStr(value));
      }
      i := i + 1;
    }
  }

  /** One turn of the property loop: the `i`-th property's entries are added to `acc`. */
  lemma FlatIntoOne(acc: Record<string>, obj: Value, i: nat, prefix: string)
    requires obj.Object? && i < |obj.fields|
    ensures var newKey := ChildKey(prefix, obj.fields[i].0);
            var value := obj.fields[i].1;
            FlatInto(acc, obj, i, prefix) ==
              FlatInto(if value.Object? then Assign(acc, Flatten(value, newKey)) else Put(acc, newKey, ToStr(value)),
                       obj, i + 1, prefix)
  {
  }

  /**
   * The inner loop of `unflattenObject`: walk `current` along all but the last
   * key, replacing a missing or falsy step by `{}`, then assign `v` at the last
   * key. Stepping through a non-empty string makes the next assignment throw
   * (module code runs in strict mode), which is the error result.
   */
  function SetPath(obj: Record<Value>, keys: seq<string>, v: Value): (r: Result<Record<Value>, string>)
    requires |keys| >= 1
    ensures r.Ok? && DistinctKeys(obj) ==> DistinctKeys(r.value)
    ensures r.Ok? ==> keys[0] in Keys(r.value) && forall k :: k in Keys(obj) ==> k in Keys(r.value)
    decreases |keys|
  {
    if |keys| == 1 then PutKeys(obj, keys[0], v); Ok(Put(obj, keys[0], v))
    else
      var current := Lookup(obj, keys[0]).GetOr(Undefined);
      var base: Option<Record<Value>> :=
        if !Truthy(current) then Some([]) else if current.Object? then Some(current.fields) else None;
      match base
      case None => Err("TypeError: cannot create property on a primitive")
      case Some(b) =>
        match SetPath(b, keys[1..], v)
        case Ok(sub) =>
          PutKeys(obj, keys[0], Object(sub));
          Ok(Put(obj, keys[0], Object(sub)))
        case Err(e) => Err(e)
  }

  /** The outer loop of `unflattenObject` over the remaining entries of `flat`. */
  function UnflatInto(acc: Record<Value>, flat: Record<string>): (r: Result<Record<Value>, string>)
    ensures r.Ok? && DistinctKeys(acc) ==> DistinctKeys(r.value)
    ensures r.Ok? ==> forall k :: k in Keys(acc) ==> k in Keys(r.value)
    ensures r.Ok? ==> forall i :: 0 <= i < |flat| ==> Split(flat[i].0, '.')[0] in Keys(r.value)
    decreases |flat|
  {
    if |flat| == 0 then Ok(acc)
    else
      match SetPath(acc, Split(flat[0].0, '.'), Str(flat[0].1))
      case Ok(next) => UnflatInto(next, flat[1..])
      case Err(e) => Err(e)
  }

  /** `unflattenObject(flat)`: every dotted key split on '.', its value placed at that path. */
  function Unflatten(flat: Record<string>): (r: Result<Value, string>)
    ensures |flat| == 0 ==> r == Ok(Object([]))
    ensures r.Ok? ==> r.value.Object? && DistinctKeys(r.value.fields)
    ensures r.Ok? ==> forall i :: 0 <= i < |flat| ==> Split(flat[i].0, '.')[0] in Keys(r.value.fields)
  {
    match UnflatInto([], flat)
    case Ok(fields) => Ok(Object(fields))
    case Err(e) => Err(e)
  }

  /** `unflattenObject`, with its loop over the flat entries. */
  method UnflattenObject(flat: Record<string>) returns (r: Result<Value, string>)
    ensures r == Unflatten(flat)
  {
    var result: Record<Value> := [];
    var i := 0;
    while i < |flat|
      invariant i <= |flat|
      invariant UnflatInto(result, flat[i..]) == UnflatInto([], flat)
    {
      assert flat[i..][0] == flat[i] && flat[i..][1..] == flat[i + 1..];
      var keys := Split(flat[i].0, '.');
      var step := SetPath(result, keys, Str(flat[i].1));
      if step.Err? {
        return Err(step.error);
      }
      result := step.value;
      i := i + 1;
    }
    assert flat[i..] == [];
    return Ok(Object(result));
  }

  // ---------------------------------------------------------------------------
  // The tree as a list of leaves, for stating what flattening produces.

  /** A property name usable in a dotted key: non-empty, free of '.', and not inherited from `Object.prototype`. */
  predicate ValidKey(k: string) {
    k != "" && '.' !in k && k !in ObjectPrototypeNames
  }

  /**
   * The properties every plain object inherits from `Object.prototype`. Reading
   * one of them on an object that lacks it as an own property finds the
   * inherited member, so `unflattenObject` never creates it as a nested object.
   */
  const ObjectPrototypeNames: set<string> := {
    "constructor", "hasOwnProperty", "isPrototypeOf", "propertyIsEnumerable",
    "toLocaleString", "toString", "valueOf", "__proto__",
    "__defineGetter__", "__defineSetter__", "__lookupGetter__", "__lookupSetter__"
  }

  /** A path of property names leading to a leaf. */
  predicate PathOk(p: seq<string>) {
    |p| >= 1 && forall s :: 0 <= s < |p| ==> ValidKey(p[s])
  }

  /** Every (nested) object has distinct, valid property names. */
  predicate WellKeyed(obj: Value)
    decreases obj
  {
    obj.Object? && DistinctKeys(obj.fields) &&
    forall i :: 0 <= i < |obj.fields| ==>
      ValidKey(obj.fields[i].0) && (obj.fields[i].1.Object? ==> WellKeyed(obj.fields[i].1))
  }

  /** Every leaf is a string and every nested object has at least one property. */
  predicate StringTree(obj: Value)
    decreases obj
  {
    obj.Object? &&
    forall i :: 0 <= i < |obj.fields| ==>
      obj.fields[i].1.Str? ||
      (obj.fields[i].1.Object? && |obj.fields[i].1.fields| > 0 && StringTree(obj.fields[i].1))
  }

  type Leaf = (seq<string>, Value)

  function Prefixed(k: string, ls: seq<Leaf>): (r: seq<Leaf>)
    ensures |r| == |ls|
    ensures forall j :: 0 <= j < |ls| ==> r[j] == ([k] + ls[j].0, ls[j].1)
  {
    seq(|ls|, j requires 0 <= j < |ls| => ([k] + ls[j].0, ls[j].1))
  }

  /** The leaves below the `i`-th property of `obj` on, depth first, each with its path. */
  function LeavesFrom(obj: Value, i: nat): seq<Leaf>
    requires obj.Object? && i <= |obj.fields|
    decreases obj, |obj.fields| - i, 1
  {
    if i == |obj.fields| then [] else HeadLeaves(obj, i) + LeavesFrom(obj, i + 1)
  }

  /** The leaves of the `i`-th property of `obj`: itself, or the leaves below it prefixed by its name. */
  function HeadLeaves(obj: Value, i: nat): seq<Leaf>
    requires obj.Object? && i < |obj.fields|
    decreases obj, |obj.fields| - i, 0
  {
    var k := obj.fields[i].0;
    var v := obj.fields[i].1;
    if v.Object? then Prefixed(k, LeavesFrom(v, 0)) else [([k], v)]
  }

  /** The flat entries of leaves below the path `p`: the dotted path, and the leaf as a string. */
  function Keyed(p: seq<string>, ls: seq<Leaf>): (r: Record<string>)
    ensures |r| == |ls|
    ensures forall j :: 0 <= j < |ls| ==> r[j] == (Join(p + ls[j].0, "."), ToStr(ls[j].1))
  {
    seq(|ls|, j requires 0 <= j < |ls| => (Join(p + ls[j].0, "."), ToStr(ls[j].1)))
  }

  /** Assigning every leaf path of a list into `acc` in turn. */
  function UnflatPaths(acc: Record<Value>, ls: seq<Leaf>): Result<Record<Value>, string>
    requires forall j :: 0 <= j < |ls| ==> |ls[j].0| >= 1
    decreases |ls|
  {
    if |ls| == 0 then Ok(acc)
    else
      match SetPath(acc, ls[0].0, ls[0].1)
      case Ok(next) => UnflatPaths(next, ls[1..])
      case Err(e) => Err(e)
  }

  // ---------------------------------------------------------------------------
  // Flattening yields one entry per leaf, keyed by its dotted path.

  /** Below a path of valid names, the child key is the dotted join of the longer path. */
  lemma ChildKeyJoin(p: seq<string>, k: string)
    requires |p| >= 1 ==> p[0] != ""
    ensures ChildKey(Join(p, "."), k) == Join(p + [k], ".")
  {
    if |p| >= 1 {
      JoinNonEmpty(p, ".");
      JoinSnoc(p, k, ".");
    } else {
      assert p + [k] == [k];
    }
  }

  /** Distinct paths of valid names have distinct dotted keys. */
  lemma JoinInjective(a: seq<string>, b: seq<string>)
    requires PathOk(a) && PathOk(b) && Join(a, ".") == Join(b, ".")
    ensures a == b
  {
    assert "." == ['.'];
    JoinSplit(a, '.');
    JoinSplit(b, '.');
  }

  /** Below a common valid prefix, equal dotted keys mean equal paths. */
  lemma JoinPrefixInjective(p: seq<string>, x: seq<string>, y: seq<string>)
    requires forall s :: 0 <= s < |p| ==> ValidKey(p[s])
    requires PathOk(x) && PathOk(y)
    ensures Join(p + x, ".") == Join(p + y, ".") ==> x == y
  {
    if Join(p + x, ".") == Join(p + y, ".") {
      PathConcat(p, x);
      PathConcat(p, y);
      JoinInjective(p + x, p + y);
      assert x == (p + x)[|p|..];
      assert y == (p + y)[|p|..];
    }
  }

  /**
   * Every leaf has a valid path that starts with the name of a property from
   * the `i`-th on, holds no object, and no two leaves share a path.
   */
  lemma {:induction false} LeavesShape(obj: Value, i: nat)
    requires WellKeyed(obj) && i <= |obj.fields|
    ensures forall a :: 0 <= a < |LeavesFrom(obj, i)| ==>
      PathOk(LeavesFrom(obj, i)[a].0) && !LeavesFrom(obj, i)[a].1.Object? &&
      exists j :: i <= j < |obj.fields| && LeavesFrom(obj, i)[a].0[0] == obj.fields[j].0
    ensures forall a, b :: 0 <= a < b < |LeavesFrom(obj, i)| ==>
      LeavesFrom(obj, i)[a].0 != LeavesFrom(obj, i)[b].0
    decreases obj, |obj.fields| - i, 1
  {
    if i < |obj.fields| {
      var k := obj.fields[i].0;
      var v := obj.fields[i].1;
      if v.Object? {
        LeavesShape(v, 0);
        PrefixedShape(k, LeavesFrom(v, 0));
      } else {
        assert HeadLeaves(obj, i) == [([k], v)];
        assert PathOk([k]);
      }
      ConcatShape(obj, i, i + 1, HeadLeaves(obj, i));
      assert LeavesFrom(obj, i) == HeadLeaves(obj, i) + LeavesFrom(obj, i + 1);
    } else {
      assert LeavesFrom(obj, i) == [];
    }
  }

  /** Leaves put below the valid name `k` keep valid, distinct paths, all starting with `k`. */
  lemma PrefixedShape(k: string, ls: seq<Leaf>)
    requires ValidKey(k)
    requires forall a :: 0 <= a < |ls| ==> PathOk(ls[a].0) && !ls[a].1.Object?
    requires forall a, b :: 0 <= a < b < |ls| ==> ls[a].0 != ls[b].0
    ensures forall a :: 0 <= a < |Prefixed(k, ls)| ==>
      PathOk(Prefixed(k, ls)[a].0) && !Prefixed(k, ls)[a].1.Object? && Prefixed(k, ls)[a].0[0] == k
    ensures forall a, b :: 0 <= a < b < |Prefixed(k, ls)| ==> Prefixed(k, ls)[a].0 != Prefixed(k, ls)[b].0
  {
    var head := Prefixed(k, ls);
    forall a | 0 <= a < |head|
      ensures PathOk(head[a].0) && !head[a].1.Object? && head[a].0[0] == k
    {
      var q := ls[a].0;
      assert head[a].0 == [k] + q;
      assert forall s :: 1 <= s < |head[a].0| ==> head[a].0[s] == q[s - 1];
    }
    forall a, b | 0 <= a < b < |head| ensures head[a].0 != head[b].0 {
      assert head[a].0[1..] == ls[a].0;
      assert head[b].0[1..] == ls[b].0;
    }
  }

  /**
   * The leaves of the `i`-th property, all under its name, followed by those
   * of the later properties: the paths stay distinct because the names are.
   */
  lemma ConcatShape(obj: Value, i: nat, next: nat, head: seq<Leaf>)
    requires WellKeyed(obj) && i < |obj.fields| && next == i + 1
    requires forall a :: 0 <= a < |head| ==>
      PathOk(head[a].0) && !head[a].1.Object? && head[a].0[0] == obj.fields[i].0
    requires forall a, b :: 0 <= a < b < |head| ==> head[a].0 != head[b].0
    ensures forall a :: 0 <= a < |head + LeavesFrom(obj, next)| ==>
      PathOk((head + LeavesFrom(obj, next))[a].0) && !(head + LeavesFrom(obj, next))[a].1.Object? &&
      exists j :: i <= j < |obj.fields| && (head + LeavesFrom(obj, next))[a].0[0] == obj.fields[j].0
    ensures forall a, b :: 0 <= a < b < |head + LeavesFrom(obj, next)| ==>
      (head + LeavesFrom(obj, next))[a].0 != (head + LeavesFrom(obj, next))[b].0
    decreases obj, |obj.fields| - i, 0
  {
    LeavesShape(obj, next);
    var rest := LeavesFrom(obj, next);
    var all := head + rest;
    forall a | 0 <= a < |all|
      ensures PathOk(all[a].0) && !all[a].1.Object?
      ensures exists j :: i <= j < |obj.fields| && all[a].0[0] == obj.fields[j].0
    {
      if a < |head| {
        assert all[a] == head[a] && head[a].0[0] == obj.fields[i].0;
      } else {
        assert all[a] == rest[a - |head|];
      }
    }
    forall a, b | 0 <= a < b < |all| ensures all[a].0 != all[b].0 {
      if b < |head| {
        assert all[a] == head[a] && all[b] == head[b];
      } else if a < |head| {
        assert all[a] == head[a] && all[b] == rest[b - |head|];
        var j :| i + 1 <= j < |obj.fields| && rest[b - |head|].0[0] == obj.fields[j].0;
        assert obj.fields[i].0 != obj.fields[j].0;
      } else {
        assert all[a] == rest[a - |head|] && all[b] == rest[b - |head|];
      }
    }
  }

  /** `Object.assign` onto an object with none of the source's keys appends the source. */
  lemma {:induction false} AssignAppend(target: Record<string>, source: Record<string>)
    requires DistinctKeys(source)
    requires NoneIn(target, source)
    ensures Assign(target, source) == target + source
    decreases |source|
  {
    if |source| > 0 {
      PutNew(target, source[0].0, source[0].1);
      KeysAppend(target, source[0]);
      AssignAppend(target + [source[0]], source[1..]);
      assert target + [source[0]] + source[1..] == target + source;
    }
  }

  /** None of the keys of `entries` is a key of `acc`. */
  predicate NoneIn(acc: Record<string>, entries: Record<string>) {
    forall a :: 0 <= a < |entries| ==> entries[a].0 !in Keys(acc)
  }

  lemma KeyedAppend(p: seq<string>, xs: seq<Leaf>, ys: seq<Leaf>)
    ensures Keyed(p, xs + ys) == Keyed(p, xs) + Keyed(p, ys)
  {
  }

  lemma NoneInSplit(acc: Record<string>, xs: Record<string>, ys: Record<string>)
    requires NoneIn(acc, xs + ys)
    ensures NoneIn(acc, xs) && NoneIn(acc, ys)
  {
    assert forall a :: 0 <= a < |xs| ==> (xs + ys)[a] == xs[a];
    assert forall a :: 0 <= a < |ys| ==> (xs + ys)[|xs| + a] == ys[a];
  }

  lemma NoneInConcat(acc: Record<string>, added: Record<string>, ys: Record<string>)
    requires NoneIn(acc, ys) && NoneIn(added, ys)
    ensures NoneIn(acc + added, ys)
  {
    assert Keys(acc + added) == Keys(acc) + Keys(added);
  }

  /** A dotted key of the `i`-th property's leaves differs from every dotted key of later leaves. */
  lemma HeadRestDisjoint(obj: Value, i: nat, p: seq<string>)
    requires WellKeyed(obj) && i < |obj.fields|
    requires forall s :: 0 <= s < |p| ==> ValidKey(p[s])
    ensures NoneIn(Keyed(p, HeadLeaves(obj, i)), Keyed(p, LeavesFrom(obj, i + 1)))
  {
    var head := HeadLeaves(obj, i);
    var rest := LeavesFrom(obj, i + 1);
    var all := LeavesFrom(obj, i);
    var added := Keyed(p, head);
    LeavesShape(obj, i);
    LeavesShape(obj, i + 1);
    forall b | 0 <= b < |rest| ensures Keyed(p, rest)[b].0 !in Keys(added) {
      forall a | 0 <= a < |head| ensures Join(p + rest[b].0, ".") != added[a].0 {
        assert all[a] == head[a];
        assert head[a].0[0] == obj.fields[i].0;
        var j :| i + 1 <= j < |obj.fields| && rest[b].0[0] == obj.fields[j].0;
        assert obj.fields[i].0 != obj.fields[j].0;
        assert rest[b].0 != head[a].0;
        JoinPrefixInjective(p, rest[b].0, head[a].0);
      }
    }
  }

  /** The head leaves' paths under a valid prefix have pairwise distinct dotted keys. */
  lemma HeadDistinct(obj: Value, i: nat, p: seq<string>)
    requires WellKeyed(obj) && i < |obj.fields|
    requires forall s :: 0 <= s < |p| ==> ValidKey(p[s])
    ensures DistinctKeys(Keyed(p, HeadLeaves(obj, i)))
  {
    var head := HeadLeaves(obj, i);
    var added := Keyed(p, head);
    var all := LeavesFrom(obj, i);
    LeavesShape(obj, i);
    forall a, b | 0 <= a < b < |added| ensures added[a].0 != added[b].0 {
      assert all[a] == head[a] && all[b] == head[b];
      JoinPrefixInjective(p, head[a].0, head[b].0);
    }
  }

  /** Flattening one property onto `acc` appends the entries of its leaves. */
  lemma {:induction false} FlatHead(acc: Record<string>, obj: Value, i: nat, p: seq<string>)
    requires WellKeyed(obj) && i < |obj.fields|
    requires forall s :: 0 <= s < |p| ==> ValidKey(p[s])
    requires NoneIn(acc, Keyed(p, HeadLeaves(obj, i)))
    ensures var k := obj.fields[i].0;
            var v := obj.fields[i].1;
            var newKey := Join(p + [k], ".");
            (if v.Object? then Assign(acc, FlatInto([], v, 0, newKey)) else Put(acc, newKey, ToStr(v)))
            == acc + Keyed(p, HeadLeaves(obj, i))
    decreases obj, |obj.fields| - i, 0
  {
    var k := obj.fields[i].0;
    var v := obj.fields[i].1;
    var head := HeadLeaves(obj, i);
    var added := Keyed(p, head);
    if v.Object? {
      assert forall s :: 0 <= s < |p + [k]| ==> ValidKey((p + [k])[s]);
      FlatIntoLeaves([], v, 0, p + [k]);
      NestedKeyedIsHead(obj, i, p);
      assert FlatInto([], v, 0, Join(p + [k], ".")) == added;
      HeadDistinct(obj, i, p);
      AssignAppend(acc, added);
    } else {
      LeafHead(acc, obj, i, p);
    }
  }

  /** The entries of a nested object's leaves, keyed below `p + [k]`, are the property's own entries. */
  lemma NestedKeyedIsHead(obj: Value, i: nat, p: seq<string>)
    requires obj.Object? && i < |obj.fields| && obj.fields[i].1.Object?
    ensures Keyed(p + [obj.fields[i].0], LeavesFrom(obj.fields[i].1, 0)) == Keyed(p, HeadLeaves(obj, i))
  {
    var k := obj.fields[i].0;
    var v := obj.fields[i].1;
    var head := HeadLeaves(obj, i);
    var nested := Keyed(p + [k], LeavesFrom(v, 0));
    var added := Keyed(p, head);
    forall a | 0 <= a < |nested| ensures nested[a] == added[a] {
      assert p + [k] + LeavesFrom(v, 0)[a].0 == p + head[a].0;
    }
  }

  /** A property that is not an object adds the one entry for its value. */
  lemma LeafHead(acc: Record<string>, obj: Value, i: nat, p: seq<string>)
    requires obj.Object? && i < |obj.fields| && !obj.fields[i].1.Object?
    requires NoneIn(acc, Keyed(p, HeadLeaves(obj, i)))
    ensures Put(acc, Join(p + [obj.fields[i].0], "."), ToStr(obj.fields[i].1)) == acc + Keyed(p, HeadLeaves(obj, i))
  {
    var k := obj.fields[i].0;
    var v := obj.fields[i].1;
    var head := HeadLeaves(obj, i);
    var added := Keyed(p, head);
    assert head == [([k], v)];
    assert added[0].0 == Join(p + [k], ".");
    PutNew(acc, Join(p + [k], "."), ToStr(v));
  }

  /** One step of the property loop: the `i`-th property's entries are appended. */
  lemma FlatIntoStep(acc: Record<string>, obj: Value, i: nat, p: seq<string>)
    requires WellKeyed(obj) && i < |obj.fields|
    requires forall s :: 0 <= s < |p| ==> ValidKey(p[s])
    requires NoneIn(acc, Keyed(p, HeadLeaves(obj, i)))
    ensures FlatInto(acc, obj, i, Join(p, ".")) == FlatInto(acc + Keyed(p, HeadLeaves(obj, i)), obj, i + 1, Join(p, "."))
    decreases obj, |obj.fields| - i, 1
  {
    ChildKeyJoin(p, obj.fields[i].0);
    FlatHead(acc, obj, i, p);
  }

  /**
   * Flattening the properties from the `i`-th on below the path `p` appends,
   * in depth-first order, one entry per leaf: its dotted path and `String(leaf)`.
   */
  lemma {:induction false} FlatIntoLeaves(acc: Record<string>, obj: Value, i: nat, p: seq<string>)
    requires WellKeyed(obj) && i <= |obj.fields|
    requires forall s :: 0 <= s < |p| ==> ValidKey(p[s])
    requires NoneIn(acc, Keyed(p, LeavesFrom(obj, i)))
    ensures FlatInto(acc, obj, i, Join(p, ".")) == acc + Keyed(p, LeavesFrom(obj, i))
    decreases obj, |obj.fields| - i, 2
  {
    if i < |obj.fields| {
      RestFresh(acc, obj, i, p);
      FlatIntoLeaves(acc + Keyed(p, HeadLeaves(obj, i)), obj, i + 1, p);
      FlatIntoSplit(acc, obj, i, p);
      FlatIntoStep(acc, obj, i, p);
    }
  }

  /** After the `i`-th property's entries are added, the later ones are still fresh. */
  lemma RestFresh(acc: Record<string>, obj: Value, i: nat, p: seq<string>)
    requires WellKeyed(obj) && i < |obj.fields|
    requires forall s :: 0 <= s < |p| ==> ValidKey(p[s])
    requires NoneIn(acc, Keyed(p, LeavesFrom(obj, i)))
    ensures NoneIn(acc + Keyed(p, HeadLeaves(obj, i)), Keyed(p, LeavesFrom(obj, i + 1)))
  {
    FlatIntoSplit(acc, obj, i, p);
  }

  /** The freshness requirement splits between the `i`-th property's leaves and the later ones. */
  lemma FlatIntoSplit(acc: Record<string>, obj: Value, i: nat, p: seq<string>)
    requires WellKeyed(obj) && i < |obj.fields|
    requires forall s :: 0 <= s < |p| ==> ValidKey(p[s])
    requires NoneIn(acc, Keyed(p, LeavesFrom(obj, i)))
    ensures NoneIn(acc, Keyed(p, HeadLeaves(obj, i)))
    ensures NoneIn(acc + Keyed(p, HeadLeaves(obj, i)), Keyed(p, LeavesFrom(obj, i + 1)))
    ensures acc + Keyed(p, LeavesFrom(obj, i)) == acc + Keyed(p, HeadLeaves(obj, i)) + Keyed(p, LeavesFrom(obj, i + 1))
  {
    var head := HeadLeaves(obj, i);
    var rest := LeavesFrom(obj, i + 1);
    var added := Keyed(p, head);
    KeyedAppend(p, head, rest);
    NoneInSplit(acc, added, Keyed(p, rest));
    HeadRestDisjoint(obj, i, p);
    NoneInConcat(acc, added, Keyed(p, rest));
  }


  /** A path of valid names extended by another is a path of valid names. */
  lemma PathConcat(p: seq<string>, q: seq<string>)
    requires forall s :: 0 <= s < |p| ==> ValidKey(p[s])
    requires PathOk(q)
    ensures PathOk(p + q)
  {
    assert forall s :: |p| <= s < |p + q| ==> (p + q)[s] == q[s - |p|];
  }

  // ---------------------------------------------------------------------------
  // Unflattening undoes flattening.

  /** Every leaf of a string tree is a string, and every property has at least one leaf. */
  lemma {:induction false} StringLeaves(obj: Value, i: nat)
    requires StringTree(obj) && i <= |obj.fields|
    ensures forall a :: 0 <= a < |LeavesFrom(obj, i)| ==> LeavesFrom(obj, i)[a].1.Str?
    ensures i < |obj.fields| ==> |HeadLeaves(obj, i)| > 0
    decreases obj, |obj.fields| - i
  {
    if i < |obj.fields| {
      var v := obj.fields[i].1;
      var head := HeadLeaves(obj, i);
      var rest := LeavesFrom(obj, i + 1);
      StringLeaves(obj, i + 1);
      if v.Object? {
        StringLeaves(v, 0);
        assert forall a :: 0 <= a < |head| ==> head[a].1 == LeavesFrom(v, 0)[a].1;
      }
      assert LeavesFrom(obj, i) == head + rest;
      assert forall a :: |head| <= a < |head| + |rest| ==> (head + rest)[a] == rest[a - |head|];
    }
  }

  /** Assigning the leaves of two lists in turn. */
  lemma {:induction false} UnflatPathsAppend(acc: Record<Value>, xs: seq<Leaf>, ys: seq<Leaf>)
    requires forall j :: 0 <= j < |xs| ==> |xs[j].0| >= 1
    requires forall j :: 0 <= j < |ys| ==> |ys[j].0| >= 1
    ensures UnflatPaths(acc, xs + ys) ==
      if UnflatPaths(acc, xs).Ok? then UnflatPaths(UnflatPaths(acc, xs).value, ys) else UnflatPaths(acc, xs)
    decreases |xs|
  {
    if |xs| == 0 {
      assert xs + ys == ys;
    } else {
      assert (xs + ys)[1..] == xs[1..] + ys;
      var step := SetPath(acc, xs[0].0, xs[0].1);
      if step.Ok? {
        UnflatPathsAppend(step.value, xs[1..], ys);
      }
    }
  }

  /**
   * Assigning leaves below an existing nested object `k` works inside that
   * object and stores the result back under `k`, at the same position.
   */
  lemma {:induction false} UnflatPrefixed(acc: Record<Value>, k: string, sub: Record<Value>, ls: seq<Leaf>)
    requires Lookup(acc, k) == Some(Object(sub))
    requires forall j :: 0 <= j < |ls| ==> |ls[j].0| >= 1
    ensures UnflatPaths(acc, Prefixed(k, ls)) ==
      if UnflatPaths(sub, ls).Ok? then Ok(Put(acc, k, Object(UnflatPaths(sub, ls).value))) else UnflatPaths(sub, ls)
    decreases |ls|
  {
    if |ls| == 0 {
      PutLookup(acc, k);
    } else {
      var pre := Prefixed(k, ls);
      assert pre[0] == ([k] + ls[0].0, ls[0].1);
      assert pre[1..] == Prefixed(k, ls[1..]);
      SetPathBelow(acc, k, sub, ls[0].0, ls[0].1);
      var step := SetPath(sub, ls[0].0, ls[0].1);
      if step.Ok? {
        var sub1 := step.value;
        LookupPut(acc, k, Object(sub1), k);
        UnflatPrefixed(Put(acc, k, Object(sub1)), k, sub1, ls[1..]);
        var tail := UnflatPaths(sub1, ls[1..]);
        if tail.Ok? {
          PutPut(acc, k, Object(sub1), Object(tail.value));
        }
      }
    }
  }

  /**
   * Assigning the path `k.q` where `k` holds the object `b`, or is missing and
   * `b` is `{}`: the assignment of `q` inside `b`, stored back under `k`.
   */
  lemma SetPathBelow(acc: Record<Value>, k: string, b: Record<Value>, q: seq<string>, v: Value)
    requires Lookup(acc, k) == Some(Object(b)) || (Lookup(acc, k).None? && b == [])
    requires |q| >= 1
    ensures SetPath(acc, [k] + q, v) ==
      if SetPath(b, q, v).Ok? then Ok(Put(acc, k, Object(SetPath(b, q, v).value))) else SetPath(b, q, v)
  {
    var keys := [k] + q;
    assert keys[0] == k && keys[1..] == q;
  }

  /** The first leaf below a missing name `k` creates `{}` there; the rest proceed as above. */
  lemma UnflatPrefixedNew(acc: Record<Value>, k: string, ls: seq<Leaf>)
    requires Lookup(acc, k).None?
    requires |ls| >= 1 && forall j :: 0 <= j < |ls| ==> |ls[j].0| >= 1
    ensures UnflatPaths(acc, Prefixed(k, ls)) ==
      if UnflatPaths([], ls).Ok? then Ok(Put(acc, k, Object(UnflatPaths([], ls).value))) else UnflatPaths([], ls)
  {
    var pre := Prefixed(k, ls);
    assert pre[0] == ([k] + ls[0].0, ls[0].1);
    assert pre[1..] == Prefixed(k, ls[1..]);
    SetPathBelow(acc, k, [], ls[0].0, ls[0].1);
    var step := SetPath([], ls[0].0, ls[0].1);
    if step.Ok? {
      var sub1 := step.value;
      LookupPut(acc, k, Object(sub1), k);
      UnflatPrefixed(Put(acc, k, Object(sub1)), k, sub1, ls[1..]);
      var tail := UnflatPaths(sub1, ls[1..]);
      if tail.Ok? {
        PutPut(acc, k, Object(sub1), Object(tail.value));
      }
    }
  }

  /** Splitting the dotted keys of flattened string leaves recovers their paths. */
  lemma {:induction false} UnflatKeyed(acc: Record<Value>, ls: seq<Leaf>)
    requires forall j :: 0 <= j < |ls| ==>
      |ls[j].0| >= 1 && (forall s :: 0 <= s < |ls[j].0| ==> '.' !in ls[j].0[s]) && ls[j].1.Str?
    ensures UnflatInto(acc, Keyed([], ls)) == UnflatPaths(acc, ls)
    decreases |ls|
  {
    if |ls| > 0 {
      var flat := Keyed([], ls);
      assert [] + ls[0].0 == ls[0].0;
      assert "." == ['.'];
      JoinSplit(ls[0].0, '.');
      assert Split(flat[0].0, '.') == ls[0].0;
      assert Str(flat[0].1) == ls[0].1;
      assert flat[1..] == Keyed([], ls[1..]);
      var step := SetPath(acc, ls[0].0, ls[0].1);
      if step.Ok? {
        UnflatKeyed(step.value, ls[1..]);
      }
    }
  }

  /** Unflattening the `i`-th property's leaves onto the earlier properties adds that property. */
  lemma {:induction false} HeadUnflat(obj: Value, i: nat)
    requires WellKeyed(obj) && StringTree(obj) && i < |obj.fields|
    requires forall a :: 0 <= a < |HeadLeaves(obj, i)| ==> |HeadLeaves(obj, i)[a].0| >= 1
    ensures UnflatPaths(obj.fields[..i], HeadLeaves(obj, i)) == Ok(obj.fields[..i + 1])
    decreases obj, |obj.fields| - i, 0
  {
    var k := obj.fields[i].0;
    var v := obj.fields[i].1;
    var acc := obj.fields[..i];
    assert k !in Keys(acc) by {
      assert forall j :: 0 <= j < i ==> Keys(acc)[j] == obj.fields[j].0;
    }
    assert acc + [(k, v)] == obj.fields[..i + 1];
    if v.Object? {
      LookupSomeIffKey(acc, k);
      LeavesShape(v, 0);
      StringLeaves(v, 0);
      UnflatPrefixedNew(acc, k, LeavesFrom(v, 0));
      RoundTripFrom(v, 0);
      assert v.fields[..0] == [];
      PutNew(acc, k, Object(v.fields));
    } else {
      PutNew(acc, k, v);
    }
  }

  /** Unflattening the leaves from the `i`-th property on, onto the earlier properties, rebuilds the object. */
  lemma {:induction false} RoundTripFrom(obj: Value, i: nat)
    requires WellKeyed(obj) && StringTree(obj) && i <= |obj.fields|
    requires forall a :: 0 <= a < |LeavesFrom(obj, i)| ==> |LeavesFrom(obj, i)[a].0| >= 1
    ensures UnflatPaths(obj.fields[..i], LeavesFrom(obj, i)) == Ok(obj.fields)
    decreases obj, |obj.fields| - i, 1
  {
    if i == |obj.fields| {
      assert obj.fields[..i] == obj.fields;
    } else {
      var head := HeadLeaves(obj, i);
      var rest := LeavesFrom(obj, i + 1);
      assert LeavesFrom(obj, i) == head + rest;
      PathsSplit(head, rest);
      HeadUnflat(obj, i);
      UnflatPathsAppend(obj.fields[..i], head, rest);
      RoundTripFrom(obj, i + 1);
    }
  }

  /** Leaves with non-empty paths, split in two, have non-empty paths on both sides. */
  lemma PathsSplit(xs: seq<Leaf>, ys: seq<Leaf>)
    requires forall a :: 0 <= a < |xs + ys| ==> |(xs + ys)[a].0| >= 1
    ensures forall a :: 0 <= a < |xs| ==> |xs[a].0| >= 1
    ensures forall a :: 0 <= a < |ys| ==> |ys[a].0| >= 1
  {
    assert forall a :: 0 <= a < |xs| ==> (xs + ys)[a] == xs[a];
    assert forall a :: 0 <= a < |ys| ==> (xs + ys)[|xs| + a] == ys[a];
  }

  /**
   * Flattening a tree with distinct, non-empty, dot-free property names gives
   * one entry per leaf, in depth-first order: the leaf's dotted path and the
   * leaf as a string. Nested objects without properties contribute nothing.
   */
  lemma FlattenLeaves(obj: Value)
    requires WellKeyed(obj)
    ensures Flatten(obj, "") == Keyed([], LeavesFrom(obj, 0))
    ensures DistinctKeys(Flatten(obj, ""))
  {
    FlatIntoLeaves([], obj, 0, []);
    assert [] + Keyed([], LeavesFrom(obj, 0)) == Keyed([], LeavesFrom(obj, 0));
    LeavesShape(obj, 0);
    KeyedDistinct([], LeavesFrom(obj, 0));
  }

  /** Distinct valid paths below a valid prefix give distinct dotted keys. */
  lemma KeyedDistinct(p: seq<string>, ls: seq<Leaf>)
    requires forall s :: 0 <= s < |p| ==> ValidKey(p[s])
    requires forall a :: 0 <= a < |ls| ==> PathOk(ls[a].0)
    requires forall a, b :: 0 <= a < b < |ls| ==> ls[a].0 != ls[b].0
    ensures DistinctKeys(Keyed(p, ls))
  {
    forall a, b | 0 <= a < b < |ls| ensures Keyed(p, ls)[a].0 != Keyed(p, ls)[b].0 {
      JoinPrefixInjective(p, ls[a].0, ls[b].0);
    }
  }

  /**
   * Round trip: unflattening the flattened form of a translation tree gives
   * the tree back, provided property names are non-empty and dot-free, every
   * leaf is a string and no nested object is empty.
   */
  lemma RoundTrip(obj: Value)
    requires WellKeyed(obj) && StringTree(obj)
    ensures Unflatten(Flatten(obj, "")) == Ok(obj)
  {
    FlattenLeaves(obj);
    UnflatLeaves(obj);
  }

  /** Unflattening the keyed leaves of a tree rebuilds its properties. */
  lemma UnflatLeaves(obj: Value)
    requires WellKeyed(obj) && StringTree(obj)
    ensures UnflatInto([], Keyed([], LeavesFrom(obj, 0))) == Ok(obj.fields)
  {
    var ls := LeavesFrom(obj, 0);
    LeavesShape(obj, 0);
    StringLeaves(obj, 0);
    UnflatKeyed([], ls);
    RoundTripFrom(obj, 0);
    assert obj.fields[..0] == [];
  }

  // ---------------------------------------------------------------------------
  // The form.

  /** An entry of the quick-pick preset list. */
  datatype Preset = Preset(code: string, name: string, nativeName: string, flag: string)

  /** `formData`: what the form posts, as `JSON.stringify(formData)`. */
  datatype LanguageForm = LanguageForm(
    code: string, name: string, nativeName: string, flag: string,
    isActive: bool, isDefault: bool, translations: Value)

  /** The page's two pieces of state: the form and the flat translation table it displays. */
  datatype PageState = PageState(formData: LanguageForm, translations: Record<string>)

  /** What the user can do on the page before submitting. */
  datatype FormEvent =
    | ChoosePreset(preset: Preset)
    | EditCode(code: string)
    | EditName(name: string)
    | EditNativeName(nativeName: string)
    | EditFlag(flag: string)
    | EditActive(isActive: bool)
    | EditDefault(isDefault: bool)
    | EditTranslation(key: string, text: string)

  /** The initial state: empty text fields, active, not default, the default English tree and its flat form. */
  function InitialState(defaults: Value): (s: PageState)
    requires defaults.Object?
    ensures s.formData.translations == defaults
    ensures s.formData.isActive && !s.formData.isDefault
    ensures s.translations == Flatten(defaults, "")
  {
    PageState(LanguageForm("", "", "", "", true, false, defaults), Flatten(defaults, ""))
  }

  /** `applyPreset`: `{...formData, code, name, nativeName, flag}` taken from the preset. */
  function ApplyPreset(f: LanguageForm, p: Preset): (r: LanguageForm)
    ensures r.code == p.code && r.name == p.name && r.nativeName == p.nativeName && r.flag == p.flag
    ensures r.isActive == f.isActive && r.isDefault == f.isDefault && r.translations == f.translations
  {
    f.(code := p.code, name := p.name, nativeName := p.nativeName, flag := p.flag)
  }

  /** Applying a second preset leaves no trace of the first. */
  lemma PresetLastWins(f: LanguageForm, p: Preset, q: Preset)
    ensures ApplyPreset(ApplyPreset(f, p), q) == ApplyPreset(f, q)
  {
  }

  /** The state after one event: each input handler spreads the old form or table and overwrites one part. */
  function Step(s: PageState, e: FormEvent): (r: PageState)
    ensures r.formData.translations == s.formData.translations
    ensures e.EditTranslation? ==> r.translations == Put(s.translations, e.key, e.text) && r.formData == s.formData
    ensures !e.EditTranslation? ==> r.translations == s.translations
    ensures e.ChoosePreset? ==> r.formData == ApplyPreset(s.formData, e.preset)
    ensures e.EditCode? ==> r.formData == s.formData.(code := e.code)
    ensures e.EditName? ==> r.formData == s.formData.(name := e.name)
    ensures e.EditNativeName? ==> r.formData == s.formData.(nativeName := e.nativeName)
    ensures e.EditFlag? ==> r.formData == s.formData.(flag := e.flag)
    ensures e.EditActive? ==> r.formData == s.formData.(isActive := e.isActive)
    ensures e.EditDefault? ==> r.formData == s.formData.(isDefault := e.isDefault)
  {
    match e
    case ChoosePreset(p) => s.(formData := ApplyPreset(s.formData, p))
    case EditCode(v) => s.(formData := s.formData.(code := v))
    case EditName(v) => s.(formData := s.formData.(name := v))
    case EditNativeName(v) => s.(formData := s.formData.(nativeName := v))
    case EditFlag(v) => s.(formData := s.formData.(flag := v))
    case EditActive(b) => s.(formData := s.formData.(isActive := b))
    case EditDefault(b) => s.(formData := s.formData.(isDefault := b))
    case EditTranslation(k, v) => s.(translations := Put(s.translations, k, v))
  }

  /** The page after a sequence of events: the flat table only ever gains keys and stays an object. */
  function Run(s: PageState, events: seq<FormEvent>): (r: PageState)
    ensures forall k :: k in Keys(s.translations) ==> k in Keys(r.translations)
    ensures DistinctKeys(s.translations) ==> DistinctKeys(r.translations)
    decreases |events|
  {
    if |events| == 0 then s
    else if events[0].EditTranslation? then
      PutKeys(s.translations, events[0].key, events[0].text);
      Run(Step(s, events[0]), events[1..])
    else Run(Step(s, events[0]), events[1..])
  }

  /**
   * `handleSubmit` posts `formData`. Whatever the user does, the posted translations are the ones the form
   * started with: edits in the translation tab change only the flat table,
   * which is never unflattened back into the form.
   */
  lemma {:induction false} PostedTranslationsNeverEdited(s: PageState, events: seq<FormEvent>)
    ensures Run(s, events).formData.translations == s.formData.translations
    decreases |events|
  {
    if |events| > 0 {
      PostedTranslationsNeverEdited(Step(s, events[0]), events[1..]);
    }
  }
}
