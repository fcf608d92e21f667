/** `updateObject(original, rules)`: an ordered fold of declarative rules over
    a shallow copy of the original object. Each rule names an action, a path,
    an optional value and, for UPSERT_BY_KEY, the key property. */
module Updater {
  import opened Values
  import opened Paths
  import Merging
  import ArrayRules

  /** `UpdateAction`, and `Unknown` for an action string that none of the
      cases of the `switch` names (a rule read from JSON can carry one). */
  datatype Action = Replace | Ignore | Delete | Merge | Union | UpsertByKey | Unknown

  /** `UpdateRule`: an absent `value` is `Undefined` and an absent
      `keyProperty` is the empty string, which the updater treats alike. */
  datatype Rule = Rule(action: Action, path: PathSpec, value: Json, keyProperty: string)

  /** `rule.keyProperty || 'id'`. */
  function KeyProp(rule: Rule): (r: string)
    ensures r != ""
    ensures rule.keyProperty != "" ==> r == rule.keyProperty
  {
    if rule.keyProperty == "" then "id" else rule.keyProperty
  }

  /** The list one of the array actions works on: the value found there or
      in the rule, with a falsy one read as `[]`. */
  function ArrayOperands(s: Json, rule: Rule): (Json, Json)
  {
    (OrEmpty(GetAt(s, ParsePath(rule.path))), OrEmpty(rule.value))
  }

  /** One pass of the loop body: the `switch` on the rule's action. */
  function ApplyRule(s: Json, rule: Rule): Result<Json>
  {
    var path := ParsePath(rule.path);
    match rule.action
    case Replace => SetAt(s, path, rule.value)
    case Ignore => Ok(s)
    case Unknown => Ok(s)
    case Delete => DeleteAt(s, path)
    case Merge => SetAt(s, path, Merging.Merged(GetAt(s, path), rule.value))
    case Union =>
      var (cur, inc) := ArrayOperands(s, rule);
      if cur.Arr? && inc.Arr? then SetAt(s, path, Arr(ArrayRules.UnionOf(cur.items, inc.items)))
      else Ok(s)
    case UpsertByKey =>
      var (cur, inc) := ArrayOperands(s, rule);
      if cur.Arr? && inc.Arr? then
        match ArrayRules.Upserted(cur.items, inc.items, KeyProp(rule))
        case Err(e) => Err(e)
        case Ok(items) => SetAt(s, path, Arr(items))
      else Ok(s)
  }

  /** The state once the loop has applied `rules` to `s`, each rule to the
      result of the ones before it; the first error ends the loop. */
  function UpdateAll(s: Json, rules: seq<Rule>): Result<Json>
  {
    if rules == [] then Ok(s)
    else
      match UpdateAll(s, rules[..|rules| - 1])
      case Err(e) => Err(e)
      case Ok(t) => ApplyRule(t, rules[|rules| - 1])
  }

  /** The value `updateObject(original, rules)` returns. */
  function Updated(original: Json, rules: seq<Rule>): Result<Json>
  {
    UpdateAll(Spread(original), rules)
  }

  /** The body of the loop for one rule, calling the helpers. */
  method Apply(result: Json, rule: Rule) returns (r: Result<Json>)
    ensures r == ApplyRule(result, rule)
  {
    var pathArray := ParsePath(rule.path);
    match rule.action {
      case Replace =>
        r := SetValueAtPath(result, pathArray, rule.value);
      case Ignore =>
        r := Ok(result);
      case Unknown =>
        r := Ok(result);
      case Delete =>
        r := DeleteValueAtPath(result, pathArray);
      case Merge =>
        var currentValue := GetAt(result, pathArray);
        var mergedValue := Merging.DeepMerge(currentValue, rule.value);
        r := SetValueAtPath(result, pathArray, mergedValue);
      case Union =>
        var currentArray := OrEmpty(GetAt(result, pathArray));
        var newArray := OrEmpty(rule.value);
        if currentArray.Arr? && newArray.Arr? {
          var unionArray := ArrayRules.UnionArrays(currentArray.items, newArray.items);
          r := SetValueAtPath(result, pathArray, Arr(unionArray));
        } else {
          r := Ok(result);
        }
      case UpsertByKey =>
        var currentItems := OrEmpty(GetAt(result, pathArray));
        var newItems := OrEmpty(rule.value);
        var keyProp := KeyProp(rule);
        if currentItems.Arr? && newItems.Arr? {
          var updatedItems := ArrayRules.UpsertByKey(currentItems.items, newItems.items, keyProp);
          if updatedItems.Err? {
            r := Err(updatedItems.error);
          } else {
            r := SetValueAtPath(result, pathArray, Arr(updatedItems.value));
          }
        } else {
          r := Ok(result);
        }
    }
  }

  /** `updateObject`: the loop over the rules from `{...original}`. */
  method UpdateObject(original: Json, rules: seq<Rule>) returns (r: Result<Json>)
    ensures r == Updated(original, rules)
  {
    var result := Spread(original);
    for i := 0 to |rules|
      invariant UpdateAll(Spread(original), rules[..i]) == Ok(result)
    {
      assert rules[..i + 1][..i] == rules[..i];
      var step := Apply(result, rules[i]);
      if step.Err? {
        UpdateErrorStays(Spread(original), rules, i + 1);
        return step;
      }
      result := step.value;
    }
    assert rules[..|rules|] == rules;
    return Ok(result);
  }

  /** Once a rule throws, the whole update throws the same error. */
  lemma {:induction false} UpdateErrorStays(s: Json, rules: seq<Rule>, n: nat)
    requires n <= |rules| && UpdateAll(s, rules[..n]).Err?
    ensures UpdateAll(s, rules) == UpdateAll(s, rules[..n])
    decreases |rules| - n
  {
    if n < |rules| {
      assert rules[..n + 1][..n] == rules[..n];
      UpdateErrorStays(s, rules, n + 1);
    } else {
      assert rules[..n] == rules;
    }
  }

  // ---------------------------------------------------------------------
  // The fold

  /** Rules compose in sequence: applying `a + b` is applying `b` to the
      result of `a`, never to the pristine state. */
  lemma {:induction false} UpdateAllConcat(s: Json, a: seq<Rule>, b: seq<Rule>)
    ensures UpdateAll(s, a + b) ==
      if UpdateAll(s, a).Err? then UpdateAll(s, a) else UpdateAll(UpdateAll(s, a).value, b)
  {
    if b == [] {
      assert a + b == a;
    } else {
      var init := b[..|b| - 1];
      assert (a + b)[..|a + b| - 1] == a + init;
      assert (a + b)[|a + b| - 1] == b[|b| - 1];
      UpdateAllConcat(s, a, init);
    }
  }

  /** With no rules the result is the shallow copy, which is the original
      itself for a plain object. */
  lemma UpdateNoRules(original: Json)
    ensures Updated(original, []) == Ok(Spread(original))
    ensures original.Obj? ==> Updated(original, []) == Ok(original)
  {
  }

  /** The rules other than IGNORE, in order. */
  function WithoutIgnore(rules: seq<Rule>): (r: seq<Rule>)
    ensures |r| <= |rules|
    ensures forall i :: 0 <= i < |r| ==> r[i].action != Ignore
  {
    if rules == [] then []
    else
      var init := WithoutIgnore(rules[..|rules| - 1]);
      if rules[|rules| - 1].action == Ignore then init else init + [rules[|rules| - 1]]
  }

  /** IGNORE rules change nothing: dropping them all gives the same result. */
  lemma {:induction false} UpdateIgnore(s: Json, rules: seq<Rule>)
    ensures UpdateAll(s, rules) == UpdateAll(s, WithoutIgnore(rules))
  {
    if rules != [] {
      var init := rules[..|rules| - 1];
      var last := rules[|rules| - 1];
      UpdateIgnore(s, init);
      var w := WithoutIgnore(init);
      if last.action != Ignore {
        var w' := w + [last];
        assert w'[..|w'| - 1] == w;
      }
    }
  }

  /** A single IGNORE rule returns the shallow copy, that is the original
      object itself. */
  lemma IgnoreOnly(original: Json, path: PathSpec, value: Json, keyProperty: string)
    requires original.Obj?
    ensures Updated(original, [Rule(Ignore, path, value, keyProperty)]) == Ok(original)
  {
    var rules := [Rule(Ignore, path, value, keyProperty)];
    assert rules[..|rules| - 1] == [];
    assert UpdateAll(Spread(original), rules) == ApplyRule(Spread(original), rules[0]);
  }

  // ---------------------------------------------------------------------
  // The actions

  /** REPLACE stores the rule's value at the path, so reading the path back
      gives it (at the root the result is the value itself), and nothing off
      the path changes. Through plain objects and missing intermediates it
      always succeeds. */
  lemma ReplaceRule(s: Json, rule: Rule, q: seq<string>)
    requires rule.action == Replace
    ensures var p := ParsePath(rule.path);
      p != [] && ObjectPath(Spread(s), p) ==> ApplyRule(s, rule).Ok?
    ensures var p, r := ParsePath(rule.path), ApplyRule(s, rule);
      r.Ok? ==> (GetAt(r.value, p) == rule.value && (p == [] ==> r.value == rule.value) &&
        (Diverges(q, p) ==> GetAt(r.value, q) == GetAt(Spread(s), q)))
  {
    var p := ParsePath(rule.path);
    if p != [] && ObjectPath(Spread(s), p) {
      SetSucceeds(s, p, rule.value);
    }
    if ApplyRule(s, rule).Ok? {
      SetGet(s, p, rule.value);
      if Diverges(q, p) {
        SetFrame(s, p, rule.value, q);
      }
    }
  }

  /** DELETE at the root gives `undefined`; otherwise the path reads
      `undefined` afterwards, nothing off the path changes, the result is the
      unchanged shallow copy exactly when the path read `undefined` already,
      and through plain objects it always succeeds. */
  lemma DeleteRule(s: Json, rule: Rule, q: seq<string>)
    requires rule.action == Delete
    ensures ParsePath(rule.path) == [] ==> ApplyRule(s, rule) == Ok(Undefined)
    ensures var p, r := ParsePath(rule.path), ApplyRule(s, rule);
      p != [] ==>
        (ObjectPath(Spread(s), p) ==> r.Ok?) &&
        (r.Ok? ==> GetAt(r.value, p) == Undefined) &&
        (r.Ok? && Diverges(q, p) ==> GetAt(r.value, q) == GetAt(Spread(s), q)) &&
        (r == Ok(Spread(s)) <==> GetAt(Spread(s), p) == Undefined)
  {
    var p := ParsePath(rule.path);
    if p != [] {
      if ObjectPath(Spread(s), p) {
        DeleteSucceeds(s, p);
      }
      if ApplyRule(s, rule).Ok? {
        DeleteGet(s, p);
        if Diverges(q, p) {
          DeleteFrame(s, p, q);
        }
      }
      DeleteMissing(s, p);
    }
  }

  /** MERGE stores the deep merge of the current value and the rule's value
      at the path, and nothing off the path changes. */
  lemma MergeRule(s: Json, rule: Rule, q: seq<string>)
    requires rule.action == Merge && ApplyRule(s, rule).Ok?
    ensures var p := ParsePath(rule.path);
      GetAt(ApplyRule(s, rule).value, p) == Merging.Merged(GetAt(s, p), rule.value)
    ensures Diverges(q, ParsePath(rule.path)) ==>
      GetAt(ApplyRule(s, rule).value, q) == GetAt(Spread(s), q)
  {
    var p := ParsePath(rule.path);
    SetGet(s, p, Merging.Merged(GetAt(s, p), rule.value));
    if Diverges(q, p) {
      SetFrame(s, p, Merging.Merged(GetAt(s, p), rule.value), q);
    }
  }

  /** UNION is skipped unless both operands are arrays; otherwise the path
      holds the union of the current and the incoming array, and nothing off
      the path changes. */
  lemma UnionRule(s: Json, rule: Rule, q: seq<string>)
    requires rule.action == Union && ApplyRule(s, rule).Ok?
    ensures var (cur, inc) := ArrayOperands(s, rule);
      var r := ApplyRule(s, rule).value;
      if cur.Arr? && inc.Arr? then GetAt(r, ParsePath(rule.path)) == Arr(ArrayRules.UnionOf(cur.items, inc.items))
      else r == s
    ensures var (cur, inc) := ArrayOperands(s, rule);
      cur.Arr? && inc.Arr? && Diverges(q, ParsePath(rule.path)) ==>
      GetAt(ApplyRule(s, rule).value, q) == GetAt(Spread(s), q)
  {
    var (cur, inc) := ArrayOperands(s, rule);
    var p := ParsePath(rule.path);
    if cur.Arr? && inc.Arr? {
      SetGet(s, p, Arr(ArrayRules.UnionOf(cur.items, inc.items)));
      if Diverges(q, p) {
        SetFrame(s, p, Arr(ArrayRules.UnionOf(cur.items, inc.items)), q);
      }
    }
  }

  /** Applying the same UNION rule twice gives what applying it once gives. */
  lemma UnionRuleIdempotent(s: Json, rule: Rule)
    requires rule.action == Union && ApplyRule(s, rule).Ok?
    ensures ApplyRule(ApplyRule(s, rule).value, rule) == ApplyRule(s, rule)
  {
    var p := ParsePath(rule.path);
    var (cur, inc) := ArrayOperands(s, rule);
    if cur.Arr? && inc.Arr? {
      var u := Arr(ArrayRules.UnionOf(cur.items, inc.items));
      var t := ApplyRule(s, rule).value;
      assert t == SetAt(s, p, u).value;
      SetGet(s, p, u);
      assert ArrayOperands(t, rule) == (u, inc);
      ArrayRules.UnionIdempotent(cur.items, inc.items);
      SetAgain(s, p, u);
    }
  }

  /** UPSERT_BY_KEY over plain objects: it never throws while the path can be
      written, and the path then holds the upserted list, which keeps the
      original items' key values at their indices, grows by at most the
      incoming items, and keeps key values distinct when they were. */
  lemma UpsertRule(s: Json, rule: Rule)
    requires rule.action == UpsertByKey
    requires var (cur, inc) := ArrayOperands(s, rule);
      cur.Arr? && inc.Arr? && ArrayRules.AllObjects(cur.items) && ArrayRules.AllObjects(inc.items)
    ensures var (cur, inc) := ArrayOperands(s, rule);
      var p, k := ParsePath(rule.path), KeyProp(rule);
      ArrayRules.Upserted(cur.items, inc.items, k).Ok? &&
      var items := ArrayRules.Upserted(cur.items, inc.items, k).value;
      ApplyRule(s, rule) == SetAt(s, p, Arr(items)) &&
      (ApplyRule(s, rule).Ok? ==> GetAt(ApplyRule(s, rule).value, p) == Arr(items)) &&
      |cur.items| <= |items| <= |cur.items| + |inc.items| &&
      (forall i :: 0 <= i < |cur.items| ==> Member(items[i], k) == Member(cur.items[i], k)) &&
      (ArrayRules.DistinctKeys(cur.items, k) ==> ArrayRules.DistinctKeys(items, k))
  {
    var (cur, inc) := ArrayOperands(s, rule);
    var p, k := ParsePath(rule.path), KeyProp(rule);
    ArrayRules.UpsertGrowth(cur.items, inc.items, k);
    if ArrayRules.DistinctKeys(cur.items, k) {
      ArrayRules.UpsertDistinct(cur.items, inc.items, k);
    }
    var items := ArrayRules.Upserted(cur.items, inc.items, k).value;
    if ApplyRule(s, rule).Ok? {
      SetGet(s, p, Arr(items));
    }
  }

  // ---------------------------------------------------------------------
  // Well-formedness: every object keeps unique keys

  lemma {:induction false} GetAtWellFormed(v: Json, path: seq<string>)
    requires WellFormed(v)
    ensures WellFormed(GetAt(v, path))
    decreases |path|
  {
    if path != [] && !Nullish(v) {
      MemberWellFormed(v, path[0]);
      GetAtWellFormed(Member(v, path[0]), path[1..]);
    }
  }

  lemma ApplyRuleWellFormed(s: Json, rule: Rule)
    requires WellFormed(s) && WellFormed(rule.value) && ApplyRule(s, rule).Ok?
    ensures WellFormed(ApplyRule(s, rule).value)
  {
    var p := ParsePath(rule.path);
    GetAtWellFormed(s, p);
    var (cur, inc) := ArrayOperands(s, rule);
    match rule.action
    case Replace => SetWellFormed(s, p, rule.value);
    case Ignore =>
    case Unknown =>
    case Delete => DeleteWellFormed(s, p);
    case Merge =>
      Merging.MergedWellFormed(GetAt(s, p), rule.value);
      SetWellFormed(s, p, Merging.Merged(GetAt(s, p), rule.value));
    case Union =>
      if cur.Arr? && inc.Arr? {
        ArrayRules.UnionWellFormed(cur.items, inc.items);
        SetWellFormed(s, p, Arr(ArrayRules.UnionOf(cur.items, inc.items)));
      }
    case UpsertByKey =>
      if cur.Arr? && inc.Arr? {
        var up := ArrayRules.Upserted(cur.items, inc.items, KeyProp(rule));
        ArrayRules.UpsertWellFormed(cur.items, inc.items, KeyProp(rule));
        SetWellFormed(s, p, Arr(up.value));
      }
  }

  /** Updating a well-formed object with well-formed rule values gives a
      well-formed result: no object ever holds a key twice. */
  lemma {:induction false} UpdateWellFormed(original: Json, rules: seq<Rule>)
    requires WellFormed(original)
    requires forall i :: 0 <= i < |rules| ==> WellFormed(rules[i].value)
    requires Updated(original, rules).Ok?
    ensures WellFormed(Updated(original, rules).value)
  {
    SpreadWellFormed(original);
    UpdateAllWellFormed(Spread(original), rules);
  }

  lemma {:induction false} UpdateAllWellFormed(s: Json, rules: seq<Rule>)
    requires WellFormed(s)
    requires forall i :: 0 <= i < |rules| ==> WellFormed(rules[i].value)
    requires UpdateAll(s, rules).Ok?
    ensures WellFormed(UpdateAll(s, rules).value)
  {
    if rules != [] {
      var init := rules[..|rules| - 1];
      UpdateAllWellFormed(s, init);
      ApplyRuleWellFormed(UpdateAll(s, init).value, rules[|rules| - 1]);
    }
  }
}
