/** The two array actions of the updater: UNION appends the incoming
    elements whose JSON text is not yet present, and UPSERT_BY_KEY shallow
    merges each incoming item into the first item with the same key value or
    appends it. */
module ArrayRules {
  import opened Values

  /** `a` is `b` with some elements left out (order kept). */
  predicate IsSubseq(a: seq<Json>, b: seq<Json>)
    decreases |b|
  {
    if a == [] then true
    else if b == [] then false
    else (a[|a| - 1] == b[|b| - 1] && IsSubseq(a[..|a| - 1], b[..|b| - 1])) || IsSubseq(a, b[..|b| - 1])
  }

  lemma {:induction false} IsSubseqExtend(a: seq<Json>, b: seq<Json>, x: Json)
    requires IsSubseq(a, b)
    ensures IsSubseq(a, b + [x]) && IsSubseq(a + [x], b + [x])
  {
    assert (b + [x])[..|b|] == b;
    assert (a + [x])[..|a|] == a;
    if a != [] {
      assert IsSubseq(a, b + [x]);
    }
  }

  // ---------------------------------------------------------------------
  // UNION

  /** `acc.some(e => JSON.stringify(e) === JSON.stringify(x))`. */
  predicate Seen(acc: seq<Json>, x: Json)
  {
    exists i :: 0 <= i < |acc| && SameJson(acc[i], x)
  }

  /** The union array once the loop has visited `incoming`. */
  function UnionOf(current: seq<Json>, incoming: seq<Json>): seq<Json>
  {
    if incoming == [] then current
    else
      var acc := UnionOf(current, incoming[..|incoming| - 1]);
      var x := incoming[|incoming| - 1];
      if Seen(acc, x) then acc else acc + [x]
  }

  /** The loop of the UNION branch over a copy of the current array. */
  method UnionArrays(current: seq<Json>, incoming: seq<Json>) returns (u: seq<Json>)
    ensures u == UnionOf(current, incoming)
  {
    u := current;
    for i := 0 to |incoming|
      invariant u == UnionOf(current, incoming[..i])
    {
      var item := incoming[i];
      assert incoming[..i + 1][..i] == incoming[..i];
      if !Seen(u, item) {
        u := u + [item];
      }
    }
    assert incoming[..|incoming|] == incoming;
  }

  /** The current array is kept as a prefix; what follows is drawn from the
      incoming array in its order; so the length is at most the sum. */
  lemma {:induction false} UnionShape(current: seq<Json>, incoming: seq<Json>)
    ensures var u := UnionOf(current, incoming);
      |current| <= |u| <= |current| + |incoming| && u[..|current|] == current &&
      IsSubseq(u[|current|..], incoming)
  {
    if incoming != [] {
      var init := incoming[..|incoming| - 1];
      var x := incoming[|incoming| - 1];
      UnionShape(current, init);
      var acc := UnionOf(current, init);
      assert incoming == init + [x];
      IsSubseqExtend(acc[|current|..], init, x);
      if !Seen(acc, x) {
        assert (acc + [x])[|current|..] == acc[|current|..] + [x];
        assert (acc + [x])[..|current|] == acc[..|current|];
      }
    } else {
      assert UnionOf(current, incoming)[|current|..] == [];
    }
  }

  /** No appended element has the JSON text of an element before it, so
      duplicates inside the incoming array collapse to their first copy. */
  lemma {:induction false} UnionFresh(current: seq<Json>, incoming: seq<Json>)
    ensures var u := UnionOf(current, incoming);
      forall j, i :: |current| <= j < |u| && 0 <= i < j ==> !SameJson(u[i], u[j])
  {
    if incoming != [] {
      var init := incoming[..|incoming| - 1];
      var x := incoming[|incoming| - 1];
      UnionFresh(current, init);
      UnionShape(current, init);
    }
  }

  lemma SeenExtend(acc: seq<Json>, y: Json, x: Json)
    requires Seen(acc, x)
    ensures Seen(acc + [y], x)
  {
    var i :| 0 <= i < |acc| && SameJson(acc[i], x);
    assert (acc + [y])[i] == acc[i];
  }

  /** Every incoming element ends up represented: the union holds an element
      with the same JSON text. */
  lemma {:induction false} UnionCovers(current: seq<Json>, incoming: seq<Json>)
    ensures forall k :: 0 <= k < |incoming| ==> Seen(UnionOf(current, incoming), incoming[k])
  {
    if incoming != [] {
      var init := incoming[..|incoming| - 1];
      var x := incoming[|incoming| - 1];
      UnionCovers(current, init);
      var acc := UnionOf(current, init);
      forall k | 0 <= k < |incoming| ensures Seen(UnionOf(current, incoming), incoming[k]) {
        if k < |init| {
          assert incoming[k] == init[k];
          if !Seen(acc, x) {
            SeenExtend(acc, x, init[k]);
          }
        } else if !Seen(acc, x) {
          assert (acc + [x])[|acc|] == x;
        }
      }
    }
  }

  /** A union with elements that are all represented already appends nothing. */
  lemma {:induction false} UnionOfSeen(u: seq<Json>, incoming: seq<Json>)
    requires forall k :: 0 <= k < |incoming| ==> Seen(u, incoming[k])
    ensures UnionOf(u, incoming) == u
  {
    if incoming != [] {
      UnionOfSeen(u, incoming[..|incoming| - 1]);
    }
  }

  /** Applying the same union twice is applying it once. */
  lemma UnionIdempotent(current: seq<Json>, incoming: seq<Json>)
    ensures UnionOf(UnionOf(current, incoming), incoming) == UnionOf(current, incoming)
  {
    UnionCovers(current, incoming);
    UnionOfSeen(UnionOf(current, incoming), incoming);
  }

  lemma {:induction false} UnionWellFormed(current: seq<Json>, incoming: seq<Json>)
    requires forall i :: 0 <= i < |current| ==> WellFormed(current[i])
    requires forall i :: 0 <= i < |incoming| ==> WellFormed(incoming[i])
    ensures forall i :: 0 <= i < |UnionOf(current, incoming)| ==> WellFormed(UnionOf(current, incoming)[i])
  {
    if incoming != [] {
      UnionWellFormed(current, incoming[..|incoming| - 1]);
    }
  }

  // ---------------------------------------------------------------------
  // UPSERT_BY_KEY

  /** `items.findIndex(item => item[keyProp] === keyValue)`, searching from
      index `from`: reading the key of a `null` or `undefined` item throws. */
  function FindFrom(items: seq<Json>, keyProp: string, keyValue: Json, from: nat): (r: Result<int>)
    requires from <= |items|
    ensures r.Ok? ==> r.value == -1 || from <= r.value < |items|
    ensures r.Err? ==> r.error == TypeError
    decreases |items| - from
  {
    if from == |items| then Ok(-1)
    else if Nullish(items[from]) then Err(TypeError)
    else if StrictEq(Member(items[from], keyProp), keyValue) then Ok(from)
    else FindFrom(items, keyProp, keyValue, from + 1)
  }

  /** A found index is the first item from `from` on whose key value is `===`
      the one sought. */
  lemma {:induction false} FindFromFound(items: seq<Json>, keyProp: string, keyValue: Json, from: nat)
    requires from <= |items|
    requires FindFrom(items, keyProp, keyValue, from).Ok? && FindFrom(items, keyProp, keyValue, from).value >= 0
    ensures var i := FindFrom(items, keyProp, keyValue, from).value;
      StrictEq(Member(items[i], keyProp), keyValue) &&
      forall j :: from <= j < i ==> !StrictEq(Member(items[j], keyProp), keyValue)
    decreases |items| - from
  {
    if !StrictEq(Member(items[from], keyProp), keyValue) {
      FindFromFound(items, keyProp, keyValue, from + 1);
    }
  }

  /** -1 means that no item from `from` on has a `===`-equal key value. */
  lemma {:induction false} FindFromMissing(items: seq<Json>, keyProp: string, keyValue: Json, from: nat)
    requires from <= |items|
    requires FindFrom(items, keyProp, keyValue, from) == Ok(-1)
    ensures forall j :: from <= j < |items| ==> !StrictEq(Member(items[j], keyProp), keyValue)
    decreases |items| - from
  {
    if from < |items| {
      assert !StrictEq(Member(items[from], keyProp), keyValue);
      FindFromMissing(items, keyProp, keyValue, from + 1);
    }
  }

  /** The search throws exactly when it reaches a `null` or `undefined` item
      before a match. */
  lemma {:induction false} FindFromThrows(items: seq<Json>, keyProp: string, keyValue: Json, from: nat)
    requires from <= |items|
    ensures FindFrom(items, keyProp, keyValue, from).Ok? <==>
      forall j :: from <= j < |items| && Nullish(items[j]) ==>
        exists i :: from <= i < j && StrictEq(Member(items[i], keyProp), keyValue)
    decreases |items| - from
  {
    if from < |items| {
      FindFromThrows(items, keyProp, keyValue, from + 1);
      if !Nullish(items[from]) && !StrictEq(Member(items[from], keyProp), keyValue) {
        forall j | from < j < |items| && Nullish(items[j])
          ensures (exists i :: from <= i < j && StrictEq(Member(items[i], keyProp), keyValue)) <==>
            (exists i :: from + 1 <= i < j && StrictEq(Member(items[i], keyProp), keyValue))
        {
        }
      }
    }
  }

  /** Over items none of which is `null` or `undefined` the search does not throw. */
  lemma FindFromObjects(items: seq<Json>, keyProp: string, keyValue: Json, from: nat)
    requires from <= |items|
    requires forall j :: from <= j < |items| ==> !Nullish(items[j])
    ensures FindFrom(items, keyProp, keyValue, from).Ok?
  {
    FindFromThrows(items, keyProp, keyValue, from);
  }

  /** `{...a, ...b}`. */
  function ShallowMerge(a: Json, b: Json): (r: Json)
    ensures r.Obj?
  {
    Obj(Overlay(OwnEntries(a), OwnEntries(b)))
  }

  /** One pass of the loop body for `newItem`. */
  function UpsertStep(items: seq<Json>, newItem: Json, keyProp: string): Result<seq<Json>>
  {
    if Nullish(newItem) then Err(TypeError)
    else
      match FindFrom(items, keyProp, Member(newItem, keyProp), 0)
      case Err(e) => Err(e)
      case Ok(i) =>
        if i >= 0 then Ok(items[i := ShallowMerge(items[i], newItem)])
        else Ok(items + [newItem])
  }

  /** The updated items once the loop has visited `incoming`. */
  function Upserted(current: seq<Json>, incoming: seq<Json>, keyProp: string): Result<seq<Json>>
  {
    if incoming == [] then Ok(current)
    else
      match Upserted(current, incoming[..|incoming| - 1], keyProp)
      case Err(e) => Err(e)
      case Ok(acc) => UpsertStep(acc, incoming[|incoming| - 1], keyProp)
  }

  /** The loop of the UPSERT_BY_KEY branch over a copy of the current items. */
  method UpsertByKey(current: seq<Json>, incoming: seq<Json>, keyProp: string) returns (r: Result<seq<Json>>)
    ensures r == Upserted(current, incoming, keyProp)
  {
    var updated := current;
    for i := 0 to |incoming|
      invariant Upserted(current, incoming[..i], keyProp) == Ok(updated)
    {
      var newItem := incoming[i];
      assert incoming[..i + 1][..i] == incoming[..i];
      if Nullish(newItem) {
        UpsertErrorStays(current, incoming, keyProp, i + 1);
        return Err(TypeError);
      }
      var keyValue := Member(newItem, keyProp);
      var found := FindFrom(updated, keyProp, keyValue, 0);
      if found.Err? {
        UpsertErrorStays(current, incoming, keyProp, i + 1);
        return Err(found.error);
      }
      var existing := found.value;
      if existing >= 0 {
        updated := updated[existing := ShallowMerge(updated[existing], newItem)];
      } else {
        updated := updated + [newItem];
      }
    }
    assert incoming[..|incoming|] == incoming;
    return Ok(updated);
  }

  /** Once an item throws, the whole loop throws the same error. */
  lemma {:induction false} UpsertErrorStays(current: seq<Json>, incoming: seq<Json>, keyProp: string, n: nat)
    requires n <= |incoming| && Upserted(current, incoming[..n], keyProp).Err?
    ensures Upserted(current, incoming, keyProp) == Upserted(current, incoming[..n], keyProp)
    decreases |incoming| - n
  {
    if n < |incoming| {
      assert incoming[..n + 1][..n] == incoming[..n];
      UpsertErrorStays(current, incoming, keyProp, n + 1);
    } else {
      assert incoming[..n] == incoming;
    }
  }

  /** Item lists made only of plain objects with unique keys. */
  predicate AllObjects(items: seq<Json>)
  {
    forall i :: 0 <= i < |items| ==> items[i].Obj? && UniqueKeys(items[i].fields)
  }

  /** No two items have `===`-equal key values. */
  predicate DistinctKeys(items: seq<Json>, keyProp: string)
  {
    forall i, j :: 0 <= i < j < |items| ==> !StrictEq(Member(items[i], keyProp), Member(items[j], keyProp))
  }

  /** Shallow-merging into an item it matched keeps that item's key value. */
  lemma ShallowMergeKey(prev: Json, newItem: Json, keyProp: string)
    requires prev.Obj? && newItem.Obj? && UniqueKeys(newItem.fields)
    requires StrictEq(Member(prev, keyProp), Member(newItem, keyProp))
    ensures Member(ShallowMerge(prev, newItem), keyProp) == Member(prev, keyProp)
  {
    OverlayLookup(prev.fields, newItem.fields, keyProp);
  }

  /** In `{...prev, ...newItem}` the incoming fields win and the others are kept. */
  lemma ShallowMergeFields(prev: Json, newItem: Json, k: string)
    requires prev.Obj? && newItem.Obj? && UniqueKeys(newItem.fields)
    ensures Member(ShallowMerge(prev, newItem), k) ==
      if HasKey(newItem.fields, k) then Member(newItem, k) else Member(prev, k)
    ensures UniqueKeys(prev.fields) ==> UniqueKeys(ShallowMerge(prev, newItem).fields)
  {
    OverlayLookup(prev.fields, newItem.fields, k);
    if UniqueKeys(prev.fields) {
      OverlayUnique(prev.fields, newItem.fields);
    }
  }

  /** The key values of a list of items, in order. */
  function KeyValues(items: seq<Json>, keyProp: string): (r: seq<Json>)
    ensures |r| == |items| && forall i :: 0 <= i < |items| ==> r[i] == Member(items[i], keyProp)
  {
    seq(|items|, i requires 0 <= i < |items| => Member(items[i], keyProp))
  }

  /** How one item changes plain-object items: `r` is either `acc` with `x`
      appended, when no item has a `===`-equal key value, or `acc` with its
      key values in place, when some item has one. */
  predicate StepShape(acc: seq<Json>, x: Json, r: seq<Json>, keyProp: string)
  {
    AllObjects(r) &&
    ((r == acc + [x] && forall j :: 0 <= j < |acc| ==> !StrictEq(Member(acc[j], keyProp), Member(x, keyProp))) ||
     (|r| == |acc| && KeyValues(r, keyProp) == KeyValues(acc, keyProp) &&
      exists i :: 0 <= i < |acc| && StrictEq(Member(acc[i], keyProp), Member(x, keyProp))))
  }

  /** One item over plain objects: it is either merged into the first item
      with a `===`-equal key value, which keeps every key value in place, or
      appended when no item has one. */
  lemma UpsertStepShape(acc: seq<Json>, x: Json, keyProp: string)
    requires AllObjects(acc) && x.Obj? && UniqueKeys(x.fields)
    ensures UpsertStep(acc, x, keyProp).Ok?
    ensures StepShape(acc, x, UpsertStep(acc, x, keyProp).value, keyProp)
  {
    var found := FindFrom(acc, keyProp, Member(x, keyProp), 0);
    FindFromObjects(acc, keyProp, Member(x, keyProp), 0);
    if found.value >= 0 {
      FindFromFound(acc, keyProp, Member(x, keyProp), 0);
      MergeShape(acc, x, found.value, keyProp);
    } else {
      FindFromMissing(acc, keyProp, Member(x, keyProp), 0);
      AppendShape(acc, x, keyProp);
    }
  }

  lemma MergeShape(acc: seq<Json>, x: Json, i: nat, keyProp: string)
    requires AllObjects(acc) && x.Obj? && UniqueKeys(x.fields)
    requires i < |acc| && StrictEq(Member(acc[i], keyProp), Member(x, keyProp))
    ensures StepShape(acc, x, acc[i := ShallowMerge(acc[i], x)], keyProp)
  {
    var m := ShallowMerge(acc[i], x);
    var r := acc[i := m];
    ShallowMergeKey(acc[i], x, keyProp);
    OverlayUnique(acc[i].fields, x.fields);
    forall j | 0 <= j < |r|
      ensures r[j].Obj? && UniqueKeys(r[j].fields) && Member(r[j], keyProp) == Member(acc[j], keyProp)
    {
      if j != i {
        assert r[j] == acc[j];
      }
    }
    assert AllObjects(r);
    assert KeyValues(r, keyProp) == KeyValues(acc, keyProp);
    assert StrictEq(Member(acc[i], keyProp), Member(x, keyProp));
  }

  lemma AppendShape(acc: seq<Json>, x: Json, keyProp: string)
    requires AllObjects(acc) && x.Obj? && UniqueKeys(x.fields)
    requires forall j :: 0 <= j < |acc| ==> !StrictEq(Member(acc[j], keyProp), Member(x, keyProp))
    ensures StepShape(acc, x, acc + [x], keyProp)
  {
  }

  /** The fold takes one more step per incoming item. */
  lemma UpsertedSnoc(current: seq<Json>, init: seq<Json>, x: Json, keyProp: string)
    requires Upserted(current, init, keyProp).Ok?
    ensures Upserted(current, init + [x], keyProp) == UpsertStep(Upserted(current, init, keyProp).value, x, keyProp)
  {
    assert (init + [x])[..|init|] == init;
  }

  /** The last step of the fold over plain objects: the items before it and
      after it, with the shape of that step. */
  lemma UpsertLast(current: seq<Json>, incoming: seq<Json>, keyProp: string)
      returns (acc: seq<Json>, r: seq<Json>)
    requires AllObjects(current) && AllObjects(incoming) && incoming != []
    requires Upserted(current, incoming[..|incoming| - 1], keyProp).Ok?
    requires AllObjects(Upserted(current, incoming[..|incoming| - 1], keyProp).value)
    ensures acc == Upserted(current, incoming[..|incoming| - 1], keyProp).value
    ensures Upserted(current, incoming, keyProp) == Ok(r)
    ensures StepShape(acc, incoming[|incoming| - 1], r, keyProp)
  {
    var init := incoming[..|incoming| - 1];
    var x := incoming[|incoming| - 1];
    assert incoming == init + [x];
    acc := Upserted(current, init, keyProp).value;
    UpsertStepShape(acc, x, keyProp);
    UpsertedSnoc(current, init, x, keyProp);
    r := UpsertStep(acc, x, keyProp).value;
  }

  /** Over plain objects the upsert never throws and yields plain objects. */
  lemma {:induction false} UpsertObjects(current: seq<Json>, incoming: seq<Json>, keyProp: string)
    requires AllObjects(current) && AllObjects(incoming)
    ensures Upserted(current, incoming, keyProp).Ok?
    ensures AllObjects(Upserted(current, incoming, keyProp).value)
  {
    if incoming != [] {
      UpsertObjects(current, incoming[..|incoming| - 1], keyProp);
      var acc, r := UpsertLast(current, incoming, keyProp);
    }
  }

  /** One step keeps the key values of the items already there and adds at
      most one item. */
  lemma GrowthStep(acc: seq<Json>, x: Json, r: seq<Json>, keyProp: string)
    requires StepShape(acc, x, r, keyProp)
    ensures |acc| <= |r| <= |acc| + 1
    ensures forall i :: 0 <= i < |acc| ==> Member(r[i], keyProp) == Member(acc[i], keyProp)
  {
    if r != acc + [x] {
      assert KeyValues(r, keyProp) == KeyValues(acc, keyProp);
    }
  }

  /** The original items keep their positions and key values, and the list
      grows by at most one item per incoming item. */
  lemma {:induction false} UpsertGrowth(current: seq<Json>, incoming: seq<Json>, keyProp: string)
    requires AllObjects(current) && AllObjects(incoming)
    ensures Upserted(current, incoming, keyProp).Ok?
    ensures var r := Upserted(current, incoming, keyProp).value;
      |current| <= |r| <= |current| + |incoming| &&
      forall i :: 0 <= i < |current| ==> Member(r[i], keyProp) == Member(current[i], keyProp)
  {
    if incoming == [] {
      UpsertObjects(current, incoming, keyProp);
    } else {
      var init := incoming[..|incoming| - 1];
      UpsertObjects(current, init, keyProp);
      UpsertGrowth(current, init, keyProp);
      var acc, r := UpsertLast(current, incoming, keyProp);
      GrowthStep(acc, incoming[|incoming| - 1], r, keyProp);
    }
  }

  /** The key values of the appended items are those of incoming items, in
      incoming order. */
  lemma {:induction false} UpsertOrder(current: seq<Json>, incoming: seq<Json>, keyProp: string)
    requires AllObjects(current) && AllObjects(incoming)
    ensures Upserted(current, incoming, keyProp).Ok?
    ensures var r := Upserted(current, incoming, keyProp).value;
      |current| <= |r| && IsSubseq(KeyValues(r, keyProp)[|current|..], KeyValues(incoming, keyProp))
  {
    UpsertObjects(current, incoming, keyProp);
    if incoming == [] {
      assert KeyValues(current, keyProp)[|current|..] == [];
    } else {
      var init, x := incoming[..|incoming| - 1], incoming[|incoming| - 1];
      assert incoming == init + [x];
      UpsertObjects(current, init, keyProp);
      UpsertOrder(current, init, keyProp);
      var acc, r := UpsertLast(current, incoming, keyProp);
      OrderExtend(acc, init, x, r, keyProp, |current|);
    }
  }

  lemma OrderExtend(acc: seq<Json>, init: seq<Json>, x: Json, r: seq<Json>, keyProp: string, n: nat)
    requires n <= |acc| && IsSubseq(KeyValues(acc, keyProp)[n..], KeyValues(init, keyProp))
    requires StepShape(acc, x, r, keyProp)
    ensures n <= |r| && IsSubseq(KeyValues(r, keyProp)[n..], KeyValues(init + [x], keyProp))
  {
    var kx := Member(x, keyProp);
    assert KeyValues(init + [x], keyProp) == KeyValues(init, keyProp) + [kx];
    OrderStep(acc, x, r, keyProp);
    SubseqStep(KeyValues(acc, keyProp), KeyValues(r, keyProp), KeyValues(init, keyProp), kx, n);
  }

  /** One step leaves the key values as they were or appends the item's. */
  lemma OrderStep(acc: seq<Json>, x: Json, r: seq<Json>, keyProp: string)
    requires StepShape(acc, x, r, keyProp)
    ensures KeyValues(r, keyProp) == KeyValues(acc, keyProp) ||
      KeyValues(r, keyProp) == KeyValues(acc, keyProp) + [Member(x, keyProp)]
  {
    if r == acc + [x] {
      assert KeyValues(r, keyProp) == KeyValues(acc, keyProp) + [Member(x, keyProp)];
    }
  }

  lemma SubseqStep(ka: seq<Json>, kr: seq<Json>, ki: seq<Json>, kx: Json, n: nat)
    requires n <= |ka| && IsSubseq(ka[n..], ki)
    requires kr == ka || kr == ka + [kx]
    ensures n <= |kr| && IsSubseq(kr[n..], ki + [kx])
  {
    IsSubseqExtend(ka[n..], ki, kx);
    if kr != ka {
      assert kr[n..] == ka[n..] + [kx];
    }
  }

  /** Some item holds the key value `v`. */
  predicate HasKeyValue(items: seq<Json>, keyProp: string, v: Json)
  {
    exists j :: 0 <= j < |items| && Member(items[j], keyProp) == v
  }

  /** One step keeps the key values pairwise distinct. */
  lemma DistinctStep(acc: seq<Json>, x: Json, r: seq<Json>, keyProp: string)
    requires StepShape(acc, x, r, keyProp) && DistinctKeys(acc, keyProp)
    ensures DistinctKeys(r, keyProp)
  {
    if r == acc + [x] {
      forall i, j | 0 <= i < j < |r|
        ensures !StrictEq(Member(r[i], keyProp), Member(r[j], keyProp))
      {
        if j < |acc| {
          assert r[i] == acc[i] && r[j] == acc[j];
        } else {
          assert r[i] == acc[i] && r[j] == x;
        }
      }
    } else {
      assert KeyValues(r, keyProp) == KeyValues(acc, keyProp);
      assert forall i :: 0 <= i < |acc| ==> Member(r[i], keyProp) == Member(acc[i], keyProp);
    }
  }

  /** If the current items have pairwise distinct key values, so does the result. */
  lemma {:induction false} UpsertDistinct(current: seq<Json>, incoming: seq<Json>, keyProp: string)
    requires AllObjects(current) && AllObjects(incoming) && DistinctKeys(current, keyProp)
    ensures Upserted(current, incoming, keyProp).Ok?
    ensures DistinctKeys(Upserted(current, incoming, keyProp).value, keyProp)
  {
    if incoming == [] {
      UpsertObjects(current, incoming, keyProp);
    } else {
      var init := incoming[..|incoming| - 1];
      UpsertObjects(current, init, keyProp);
      UpsertDistinct(current, init, keyProp);
      var acc, r := UpsertLast(current, incoming, keyProp);
      DistinctStep(acc, incoming[|incoming| - 1], r, keyProp);
    }
  }

  /** One step keeps every key value present and adds the item's own when it
      is primitive. */
  lemma CoversStep(acc: seq<Json>, x: Json, r: seq<Json>, keyProp: string)
    requires StepShape(acc, x, r, keyProp)
    ensures forall v :: HasKeyValue(acc, keyProp, v) ==> HasKeyValue(r, keyProp, v)
    ensures !Member(x, keyProp).Arr? && !Member(x, keyProp).Obj? ==> HasKeyValue(r, keyProp, Member(x, keyProp))
  {
    var kx := Member(x, keyProp);
    GrowthStep(acc, x, r, keyProp);
    forall v | HasKeyValue(acc, keyProp, v) ensures HasKeyValue(r, keyProp, v) {
      var j :| 0 <= j < |acc| && Member(acc[j], keyProp) == v;
      assert Member(r[j], keyProp) == v;
    }
    if r == acc + [x] {
      assert r[|acc|] == x;
    } else if !kx.Arr? && !kx.Obj? {
      var i :| 0 <= i < |acc| && StrictEq(Member(acc[i], keyProp), kx);
      StrictEqValues(Member(acc[i], keyProp), kx);
      assert Member(r[i], keyProp) == kx;
    }
  }

  /** Every item of `incoming` whose key value is primitive has an item with
      that key value in `items`. */
  predicate Covers(items: seq<Json>, incoming: seq<Json>, keyProp: string)
  {
    forall k :: 0 <= k < |incoming| && !Member(incoming[k], keyProp).Arr? && !Member(incoming[k], keyProp).Obj? ==>
      HasKeyValue(items, keyProp, Member(incoming[k], keyProp))
  }

  lemma CoversExtend(acc: seq<Json>, init: seq<Json>, x: Json, r: seq<Json>, keyProp: string)
    requires Covers(acc, init, keyProp) && StepShape(acc, x, r, keyProp)
    ensures Covers(r, init + [x], keyProp)
  {
    CoversStep(acc, x, r, keyProp);
    var incoming := init + [x];
    forall k | 0 <= k < |incoming| && !Member(incoming[k], keyProp).Arr? && !Member(incoming[k], keyProp).Obj?
      ensures HasKeyValue(r, keyProp, Member(incoming[k], keyProp))
    {
      if k < |init| {
        assert incoming[k] == init[k];
        assert HasKeyValue(acc, keyProp, Member(init[k], keyProp));
      } else {
        assert incoming[k] == x;
      }
    }
  }

  /** Every incoming item with a primitive key value has an item with that key
      value in the result: it was merged into one or appended. */
  lemma {:induction false} UpsertCovers(current: seq<Json>, incoming: seq<Json>, keyProp: string)
    requires AllObjects(current) && AllObjects(incoming)
    ensures Upserted(current, incoming, keyProp).Ok?
    ensures Covers(Upserted(current, incoming, keyProp).value, incoming, keyProp)
  {
    if incoming == [] {
      UpsertObjects(current, incoming, keyProp);
    } else {
      var init, x := incoming[..|incoming| - 1], incoming[|incoming| - 1];
      assert incoming == init + [x];
      UpsertObjects(current, init, keyProp);
      UpsertCovers(current, init, keyProp);
      var acc, r := UpsertLast(current, incoming, keyProp);
      CoversExtend(acc, init, x, r, keyProp);
    }
  }

  lemma {:induction false} UpsertWellFormed(current: seq<Json>, incoming: seq<Json>, keyProp: string)
    requires forall i :: 0 <= i < |current| ==> WellFormed(current[i])
    requires forall i :: 0 <= i < |incoming| ==> WellFormed(incoming[i])
    requires Upserted(current, incoming, keyProp).Ok?
    ensures var r := Upserted(current, incoming, keyProp).value;
      forall i :: 0 <= i < |r| ==> WellFormed(r[i])
  {
    if incoming != [] {
      var init := incoming[..|incoming| - 1];
      var x := incoming[|incoming| - 1];
      UpsertWellFormed(current, init, keyProp);
      var acc := Upserted(current, init, keyProp).value;
      var found := FindFrom(acc, keyProp, Member(x, keyProp), 0);
      if found.value >= 0 {
        var i := found.value;
        ShallowMergeWellFormed(acc[i], x);
      }
    }
  }

  lemma ShallowMergeWellFormed(a: Json, b: Json)
    requires WellFormed(a) && WellFormed(b)
    ensures WellFormed(ShallowMerge(a, b))
  {
    SpreadWellFormed(a);
    SpreadWellFormed(b);
    assert WellFormedFields(OwnEntries(a)) && WellFormedFields(OwnEntries(b));
    OverlayWellFormed(OwnEntries(a), OwnEntries(b));
  }
}
