/** Worked examples computed on the model: one DELETE, MERGE, UNION and
    UPSERT_BY_KEY rule applied to a small object, with the steps of the
    helpers they go through. */
module Scenarios {
  import opened Values
  import opened Paths
  import opened Updater
  import Merging
  import ArrayRules

  lemma Single(original: Json, rule: Rule)
    ensures Updated(original, [rule]) == ApplyRule(Spread(original), rule)
  {
    var rs := [rule];
    assert rs[..|rs| - 1] == [] && rs[|rs| - 1] == rule;
    assert UpdateAll(Spread(original), []) == Ok(Spread(original));
    assert UpdateAll(Spread(original), rs) == ApplyRule(Spread(original), rule);
  }

  lemma KeyPath(k: string)
    requires k != "" && '.' !in k
    ensures ParsePath(Dotted(k)) == [k]
  {
    ParseDotted([k]);
  }

  /** `{a: 1, b: 2}` with `a` deleted is `{b: 2}`. */
  lemma DeleteExample()
    ensures Updated(Obj([("a", Num(1)), ("b", Num(2))]), [Rule(Delete, Dotted("a"), Undefined, "")]) == Ok(Obj([("b", Num(2))]))
  {
    var s := Obj([("a", Num(1)), ("b", Num(2))]);
    Single(s, Rule(Delete, Dotted("a"), Undefined, ""));
    KeyPath("a");
    var fs := s.fields;
    assert fs[1..] == [("b", Num(2))] && fs[1..][1..] == [];
    assert Remove(fs[1..][1..], "a") == [];
    assert Remove(fs[1..], "a") == [("b", Num(2))];
    assert Remove(fs, "a") == [("b", Num(2))];
    assert Member(s, "a") == Num(1);
    assert DeleteIn(s, ["a"]) == Ok(Changed(Obj([("b", Num(2))])));
  }

  lemma MergeFirst()
    ensures Merging.MergeEntries(Obj([("a", Num(1)), ("b", Num(2))]), Obj([("b", Num(3)), ("c", Num(4))]),
      [("b", Num(3)), ("c", Num(4))][..1]) == [("a", Num(1)), ("b", Num(3))]
  {
    var x := Obj([("a", Num(1)), ("b", Num(2))]);
    var v := Obj([("b", Num(3)), ("c", Num(4))]);
    var es := [("b", Num(3)), ("c", Num(4))][..1];
    assert es == [("b", Num(3))] && es[..0] == [];
    assert Member(x, "b") == Num(2);
  }

  lemma MergeSecond()
    ensures Merging.MergeEntries(Obj([("a", Num(1)), ("b", Num(2))]), Obj([("b", Num(3)), ("c", Num(4))]), [("b", Num(3)), ("c", Num(4))]) ==
      [("a", Num(1)), ("b", Num(3)), ("c", Num(4))]
  {
    var x := Obj([("a", Num(1)), ("b", Num(2))]);
    var v := Obj([("b", Num(3)), ("c", Num(4))]);
    var es := [("b", Num(3)), ("c", Num(4))];
    assert es[..1] == [("b", Num(3))];
    MergeFirst();
    assert Member(x, "c") == Undefined;
    assert !HasKey([("a", Num(1)), ("b", Num(3))], "c");
  }

  lemma MergedExample()
    ensures Merging.Merged(Obj([("a", Num(1)), ("b", Num(2))]), Obj([("b", Num(3)), ("c", Num(4))])) ==
      Obj([("a", Num(1)), ("b", Num(3)), ("c", Num(4))])
  {
    MergeSecond();
  }

  lemma UnionExample()
    ensures ArrayRules.UnionOf([Str("a"), Str("b")], [Str("b"), Str("c")]) == [Str("a"), Str("b"), Str("c")]
  {
    var cur := [Str("a"), Str("b")];
    var inc := [Str("b"), Str("c")];
    assert inc[..1] == [Str("b")] && inc[..1][..0] == [];
    assert SameJson(cur[1], Str("b"));
    assert ArrayRules.UnionOf(cur, inc[..1]) == cur;
    assert !SameJson(cur[0], Str("c")) && !SameJson(cur[1], Str("c"));
  }

  lemma FindExample()
    ensures ArrayRules.FindFrom([Obj([("id", Num(1)), ("name", Str("A"))]), Obj([("id", Num(2)), ("name", Str("B"))])], "id", Num(2), 0) == Ok(1)
  {
    var items := [Obj([("id", Num(1)), ("name", Str("A"))]), Obj([("id", Num(2)), ("name", Str("B"))])];
    assert Member(items[0], "id") == Num(1);
    assert Member(items[1], "id") == Num(2);
  }

  lemma ShallowMergeExample()
    ensures ArrayRules.ShallowMerge(Obj([("id", Num(2)), ("name", Str("B"))]), Obj([("id", Num(2)), ("name", Str("Bee"))])) ==
      Obj([("id", Num(2)), ("name", Str("Bee"))])
  {
    var fs := [("id", Num(2)), ("name", Str("B"))];
    var gs := [("id", Num(2)), ("name", Str("Bee"))];
    assert gs[..1] == [("id", Num(2))] && gs[..1][..0] == [];
    assert Assign(fs, "id", Num(2)) == fs;
    assert Overlay(fs, gs[..1]) == fs;
    assert Assign(fs, "name", Str("Bee")) == gs by {
      assert fs[1..] == [("name", Str("B"))];
    }
  }

  lemma UpsertFirst()
    ensures ArrayRules.UpsertStep([Obj([("id", Num(1)), ("name", Str("A"))]), Obj([("id", Num(2)), ("name", Str("B"))])],
      Obj([("id", Num(2)), ("name", Str("Bee"))]), "id") ==
      Ok([Obj([("id", Num(1)), ("name", Str("A"))]), Obj([("id", Num(2)), ("name", Str("Bee"))])])
  {
    var a := Obj([("id", Num(1)), ("name", Str("A"))]);
    var b := Obj([("id", Num(2)), ("name", Str("B"))]);
    var b' := Obj([("id", Num(2)), ("name", Str("Bee"))]);
    FindExample();
    assert Member(b', "id") == Num(2);
    ShallowMergeExample();
    assert [a, b][1 := b'] == [a, b'];
  }

  lemma UpsertSecond()
    ensures ArrayRules.UpsertStep([Obj([("id", Num(1)), ("name", Str("A"))]), Obj([("id", Num(2)), ("name", Str("Bee"))])],
      Obj([("id", Num(3)), ("name", Str("C"))]), "id") ==
      Ok([Obj([("id", Num(1)), ("name", Str("A"))]), Obj([("id", Num(2)), ("name", Str("Bee"))]), Obj([("id", Num(3)), ("name", Str("C"))])])
  {
    var a := Obj([("id", Num(1)), ("name", Str("A"))]);
    var b' := Obj([("id", Num(2)), ("name", Str("Bee"))]);
    var c := Obj([("id", Num(3)), ("name", Str("C"))]);
    assert Member(c, "id") == Num(3);
    assert Member(a, "id") == Num(1) && Member(b', "id") == Num(2);
    var items := [a, b'];
    assert ArrayRules.FindFrom(items, "id", Num(3), 2) == Ok(-1);
    assert ArrayRules.FindFrom(items, "id", Num(3), 1) == Ok(-1);
    assert ArrayRules.FindFrom(items, "id", Num(3), 0) == Ok(-1);
    assert items + [c] == [a, b', c];
  }

  lemma UpsertExample()
    ensures ArrayRules.Upserted([Obj([("id", Num(1)), ("name", Str("A"))]), Obj([("id", Num(2)), ("name", Str("B"))])],
      [Obj([("id", Num(2)), ("name", Str("Bee"))]), Obj([("id", Num(3)), ("name", Str("C"))])], "id") ==
      Ok([Obj([("id", Num(1)), ("name", Str("A"))]), Obj([("id", Num(2)), ("name", Str("Bee"))]), Obj([("id", Num(3)), ("name", Str("C"))])])
  {
    var cur := [Obj([("id", Num(1)), ("name", Str("A"))]), Obj([("id", Num(2)), ("name", Str("B"))])];
    var inc := [Obj([("id", Num(2)), ("name", Str("Bee"))]), Obj([("id", Num(3)), ("name", Str("C"))])];
    assert inc[..1] == [inc[0]] && inc[..1][..0] == [];
    UpsertFirst();
    UpsertSecond();
    assert ArrayRules.Upserted(cur, inc[..1], "id") == ArrayRules.UpsertStep(cur, inc[0], "id");
  }
  lemma SetOneKey(k: string, prev: Json, v: Json)
    ensures SetIn(Obj([(k, prev)]), [k], v) == Ok(Obj([(k, v)]))
  {
    assert Assign([(k, prev)], k, v) == [(k, v)];
  }

  /** `{x: {a: 1, b: 2}}` merged at `x` with `{b: 3, c: 4}` is `{x: {a: 1, b: 3, c: 4}}`. */
  lemma MergeRuleExample()
    ensures Updated(Obj([("x", Obj([("a", Num(1)), ("b", Num(2))]))]),
      [Rule(Merge, Dotted("x"), Obj([("b", Num(3)), ("c", Num(4))]), "")]) ==
      Ok(Obj([("x", Obj([("a", Num(1)), ("b", Num(3)), ("c", Num(4))]))]))
  {
    var x := Obj([("a", Num(1)), ("b", Num(2))]);
    var s := Obj([("x", x)]);
    Single(s, Rule(Merge, Dotted("x"), Obj([("b", Num(3)), ("c", Num(4))]), ""));
    KeyPath("x");
    assert GetAt(s, ["x"]) == x;
    MergedExample();
    SetOneKey("x", x, Obj([("a", Num(1)), ("b", Num(3)), ("c", Num(4))]));
  }

  lemma UnionAt(s: Json, rule: Rule, k: string, cur: seq<Json>, inc: seq<Json>)
    requires rule.action == Union && ParsePath(rule.path) == [k]
    requires GetAt(s, [k]) == Arr(cur) && rule.value == Arr(inc)
    ensures ApplyRule(s, rule) == SetAt(s, [k], Arr(ArrayRules.UnionOf(cur, inc)))
  {
    assert !Falsy(Arr(cur)) && !Falsy(Arr(inc));
    assert ArrayOperands(s, rule) == (Arr(cur), Arr(inc));
  }

  lemma UpsertAt(s: Json, rule: Rule, k: string, cur: seq<Json>, inc: seq<Json>, items: seq<Json>)
    requires rule.action == UpsertByKey && ParsePath(rule.path) == [k]
    requires GetAt(s, [k]) == Arr(cur) && rule.value == Arr(inc)
    requires ArrayRules.Upserted(cur, inc, KeyProp(rule)) == Ok(items)
    ensures ApplyRule(s, rule) == SetAt(s, [k], Arr(items))
  {
    assert !Falsy(Arr(cur)) && !Falsy(Arr(inc));
    assert ArrayOperands(s, rule) == (Arr(cur), Arr(inc));
  }

  /** `{tags: ["a", "b"]}` with the union of `["b", "c"]` at `tags` is
      `{tags: ["a", "b", "c"]}`. */
  lemma UnionRuleExample()
    ensures Updated(Obj([("tags", Arr([Str("a"), Str("b")]))]),
      [Rule(Union, Dotted("tags"), Arr([Str("b"), Str("c")]), "")]) ==
      Ok(Obj([("tags", Arr([Str("a"), Str("b"), Str("c")]))]))
  {
    var cur := Arr([Str("a"), Str("b")]);
    var s := Obj([("tags", cur)]);
    var rule := Rule(Union, Dotted("tags"), Arr([Str("b"), Str("c")]), "");
    Single(s, rule);
    KeyPath("tags");
    assert GetAt(s, ["tags"]) == cur;
    UnionExample();
    var u := Arr([Str("a"), Str("b"), Str("c")]);
    UnionAt(s, rule, "tags", cur.items, rule.value.items);
    SetOneKey("tags", cur, u);
  }

  /** Upserting `[{id: 2, name: "Bee"}, {id: 3, name: "C"}]` by `id` into
      `{users: [{id: 1, name: "A"}, {id: 2, name: "B"}]}` updates user 2 in
      place and appends user 3. */
  lemma UpsertRuleExample()
    ensures Updated(Obj([("users", Arr([Obj([("id", Num(1)), ("name", Str("A"))]), Obj([("id", Num(2)), ("name", Str("B"))])]))]),
      [Rule(UpsertByKey, Dotted("users"), Arr([Obj([("id", Num(2)), ("name", Str("Bee"))]), Obj([("id", Num(3)), ("name", Str("C"))])]), "id")]) ==
      Ok(Obj([("users", Arr([Obj([("id", Num(1)), ("name", Str("A"))]), Obj([("id", Num(2)), ("name", Str("Bee"))]), Obj([("id", Num(3)), ("name", Str("C"))])]))]))
  {
    var cur := Arr([Obj([("id", Num(1)), ("name", Str("A"))]), Obj([("id", Num(2)), ("name", Str("B"))])]);
    var s := Obj([("users", cur)]);
    var rule := Rule(UpsertByKey, Dotted("users"), Arr([Obj([("id", Num(2)), ("name", Str("Bee"))]), Obj([("id", Num(3)), ("name", Str("C"))])]), "id");
    Single(s, rule);
    KeyPath("users");
    assert GetAt(s, ["users"]) == cur;
    assert KeyProp(rule) == "id";
    UpsertExample();
    var u := Arr([Obj([("id", Num(1)), ("name", Str("A"))]), Obj([("id", Num(2)), ("name", Str("Bee"))]), Obj([("id", Num(3)), ("name", Str("C"))])]);
    UpsertAt(s, rule, "users", cur.items, rule.value.items, u.items);
    SetOneKey("users", cur, u);
  }
}
