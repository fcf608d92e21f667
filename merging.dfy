/** `deepMerge(target, source)` of the updater: a falsy source leaves the
    target, a falsy target gives the source, and otherwise every own entry of
    the source is written over a shallow copy of the target, recursing where
    both sides hold a plain object at that key. */
module Merging {
  import opened Values

  /** The value `deepMerge(target, source)` returns. */
  function Merged(target: Json, source: Json): Json
    decreases source, 1
  {
    if Falsy(source) then target
    else if Falsy(target) then source
    else Obj(MergeEntries(target, source, OwnEntries(source)))
  }

  /** The merged entries once the `for...in` loop has visited the source
      entries `es` (the value of each entry is `source[key]`). */
  function MergeEntries(target: Json, source: Json, es: Fields): Fields
    requires forall i :: 0 <= i < |es| ==> es[i].1 < source || (source.Str? && es[i].1.Str?)
    decreases source, 0, |es|
  {
    if es == [] then OwnEntries(target)
    else
      var acc := MergeEntries(target, source, es[..|es| - 1]);
      var key, sv := es[|es| - 1].0, es[|es| - 1].1;
      var tv := Member(target, key);
      Assign(acc, key, if PlainObject(sv) && PlainObject(tv) then Merged(tv, sv) else sv)
  }

  /** The recursive, loop-based computation of the source. */
  method DeepMerge(target: Json, source: Json) returns (r: Json)
    ensures r == Merged(target, source)
    decreases source, 1
  {
    if Falsy(source) {
      return target;
    }
    if Falsy(target) {
      return source;
    }
    var fields := MergeLoop(target, source);
    return Obj(fields);
  }

  /** The `for...in` loop over the source, on a shallow copy of the target. */
  method MergeLoop(target: Json, source: Json) returns (result: Fields)
    ensures result == MergeEntries(target, source, OwnEntries(source))
    decreases source, 0
  {
    result := OwnEntries(target);
    var entries := OwnEntries(source);
    for i := 0 to |entries|
      invariant result == MergeEntries(target, source, entries[..i])
    {
      var key, sv := entries[i].0, entries[i].1;
      var tv := Member(target, key);
      MergeEntriesStep(target, source, i);
      var value := sv;
      if PlainObject(sv) && PlainObject(tv) {
        value := DeepMerge(tv, sv);
      }
      result := Assign(result, key, value);
    }
    assert entries[..|entries|] == entries;
  }

  /** One more visited source entry assigns its merged value. */
  lemma MergeEntriesStep(target: Json, source: Json, i: nat)
    requires i < |OwnEntries(source)|
    ensures var es := OwnEntries(source);
      MergeEntries(target, source, es[..i + 1]) ==
      Assign(MergeEntries(target, source, es[..i]), es[i].0, MergedAt(target, es[i].1, es[i].0))
  {
    var es := OwnEntries(source);
    assert es[..i + 1][..i] == es[..i];
  }

  /** The value the merge stores under a source key: the recursive merge when
      both sides are plain objects, the source's value otherwise. */
  function MergedAt(target: Json, sv: Json, key: string): Json
  {
    var tv := Member(target, key);
    if PlainObject(sv) && PlainObject(tv) then Merged(tv, sv) else sv
  }

  lemma {:induction false} MergeEntriesLookup(target: Json, source: Json, es: Fields, k: string)
    requires forall i :: 0 <= i < |es| ==> es[i].1 < source || (source.Str? && es[i].1.Str?)
    requires UniqueKeys(es)
    ensures Lookup(MergeEntries(target, source, es), k) ==
      if HasKey(es, k) then MergedAt(target, Lookup(es, k), k) else Lookup(OwnEntries(target), k)
    ensures HasKey(MergeEntries(target, source, es), k) <==> HasKey(OwnEntries(target), k) || HasKey(es, k)
    decreases |es|
  {
    if es != [] {
      var init, last := es[..|es| - 1], es[|es| - 1];
      assert es == init + [last];
      forall i, j | 0 <= i < j < |init| ensures init[i].0 != init[j].0 {
        assert init[i] == es[i] && init[j] == es[j];
      }
      forall i | 0 <= i < |init| ensures Keys(init)[i] != last.0 {
        assert es[i].0 != es[|es| - 1].0;
      }
      MergeEntriesLookup(target, source, init, k);
      LookupSnoc(init, last, k);
      var acc := MergeEntries(target, source, init);
      var mv := MergedAt(target, last.1, last.0);
      assert MergeEntries(target, source, es) == Assign(acc, last.0, mv);
      AssignHasKey(acc, last.0, mv, k);
    }
  }

  /** When both sides are truthy the result is a plain object whose keys are
      the target's and the source's; a key only the target has keeps its
      value, and a source key holds the source's value or, where both sides
      hold plain objects, their deep merge. */
  lemma MergedLookup(target: Json, source: Json, k: string)
    requires !Falsy(target) && !Falsy(source) && WellFormed(source)
    ensures Merged(target, source).Obj?
    ensures HasKey(Merged(target, source).fields, k) <==>
      HasKey(OwnEntries(target), k) || HasKey(OwnEntries(source), k)
    ensures Lookup(Merged(target, source).fields, k) ==
      if HasKey(OwnEntries(source), k) then MergedAt(target, Lookup(OwnEntries(source), k), k)
      else Lookup(OwnEntries(target), k)
  {
    OwnEntriesUnique(source);
    MergeEntriesLookup(target, source, OwnEntries(source), k);
  }

  lemma {:induction false} MergeEntriesSelf(x: Json, es: Fields)
    requires x.Obj? && WellFormed(x)
    requires |es| <= |x.fields| && es == x.fields[..|es|]
    ensures MergeEntries(x, x, es) == x.fields
    decreases x, |es|
  {
    if es != [] {
      var n := |es|;
      var init := es[..n - 1];
      assert init == x.fields[..n - 1];
      MergeEntriesSelf(x, init);
      var key, sv := es[n - 1].0, es[n - 1].1;
      assert es[n - 1] == x.fields[n - 1];
      assert sv < x;
      LookupUnique(x.fields, n - 1);
      assert Member(x, key) == sv;
      if PlainObject(sv) {
        LookupWellFormed(x.fields, key);
        MergedSelf(sv);
      }
      AssignSame(x.fields, key);
    }
  }

  /** Deep-merging a well-formed object into itself gives it back. */
  lemma {:induction false} MergedSelf(x: Json)
    requires x.Obj? && WellFormed(x)
    ensures Merged(x, x) == x
    decreases x, |x.fields| + 1
  {
    assert x.fields[..|x.fields|] == x.fields;
    MergeEntriesSelf(x, x.fields);
  }

  /** In an object with unique keys, the key of entry `i` looks up entry `i`. */
  lemma {:induction false} LookupUnique(fs: Fields, i: nat)
    requires UniqueKeys(fs) && i < |fs|
    ensures Lookup(fs, fs[i].0) == fs[i].1
    ensures HasKey(fs, fs[i].0)
  {
    assert Keys(fs)[i] == fs[i].0;
    if i > 0 {
      LookupUnique(fs[1..], i - 1);
    }
  }

  lemma {:induction false} MergeEntriesWellFormed(target: Json, source: Json, es: Fields)
    requires forall i :: 0 <= i < |es| ==> es[i].1 < source || (source.Str? && es[i].1.Str?)
    requires WellFormed(target) && forall i :: 0 <= i < |es| ==> WellFormed(es[i].1)
    ensures WellFormedFields(MergeEntries(target, source, es))
    decreases source, 0, |es|
  {
    if es == [] {
      SpreadWellFormed(target);
      assert Spread(target).fields == OwnEntries(target);
    } else {
      var init := es[..|es| - 1];
      MergeEntriesWellFormed(target, source, init);
      var key, sv := es[|es| - 1].0, es[|es| - 1].1;
      var tv := Member(target, key);
      MemberWellFormed(target, key);
      if PlainObject(sv) && PlainObject(tv) {
        MergedWellFormed(tv, sv);
      }
      AssignWellFormed(MergeEntries(target, source, init), key, MergedAt(target, sv, key));
    }
  }

  /** Merging well-formed values keeps every object's keys unique. */
  lemma {:induction false} MergedWellFormed(target: Json, source: Json)
    requires WellFormed(target) && WellFormed(source)
    ensures WellFormed(Merged(target, source))
    decreases source, 1
  {
    if !Falsy(source) && !Falsy(target) {
      var es := OwnEntries(source);
      if source.Obj? {
        assert forall i :: 0 <= i < |es| ==> WellFormed(es[i].1);
      } else if source.Arr? {
        assert forall i :: 0 <= i < |es| ==> es[i].1 == source.items[i];
      }
      MergeEntriesWellFormed(target, source, es);
    }
  }
}
