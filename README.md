# Object updater with rules, in Dafny

This project models the rule-based object updater of the repository
(`src/lib/objectUpdater.ts`) and the line-by-line comparison of its
before/after view (`diffLines` in `src/components/JsonDiff.tsx`), and proves
properties of both.

`updateObject(original, rules)` starts from a shallow copy `{...original}`. It
folds an ordered list of rules over that copy. Each rule names an action
(REPLACE, IGNORE, DELETE, MERGE, UNION, UPSERT_BY_KEY), a path (a dotted
string, an array of segments, or nothing), an optional value and, for
UPSERT_BY_KEY, a key property (default `id`). An action string that names
none of the six falls through the `switch` and changes nothing (the action
`Unknown` of the model). The path helpers walk a cursor
down the copy:

- `getValueAtPath` reads the value, giving `undefined` once an intermediate is
  `undefined` or `null`.
- `setValueAtPath` puts `{}` in place of each missing intermediate and assigns
  the last segment.
- `deleteValueAtPath` stops at a missing intermediate and deletes the last key
  unless its value is `undefined`.

`deepMerge` writes every own entry of the source over a copy of the target. It
recurses where both sides hold plain objects. UNION appends each incoming
element whose JSON text is not yet in the growing array. UPSERT_BY_KEY
shallow-merges each incoming item into the first item with a `===`-equal key
value, or appends the item when there is none.

Modules, one concern each:

- `Values` (values.dfy): the JavaScript values, as JSON values plus
  `undefined` with insertion-ordered objects. It also defines truthiness,
  member access, own entries and spread, assignment and `delete` on entry
  lists, and `JSON.stringify` equality (`Canon`/`SameJson`).
- `Text` (text.dfy): `split` and `join` with a one-character separator, and
  the decimal spelling of array indices.
- `Paths` (paths.dfy): path parsing and the get, set and delete helpers. It
  also holds the cursor walks of set and delete as imperative methods.
- `Merging` (merging.dfy): `deepMerge`.
- `ArrayRules` (arrays.dfy): the loops of the UNION and UPSERT_BY_KEY
  branches.
- `Updater` (updater.dfy): the rule types, the action `switch` and the fold.
- `Diff` (diff.dfy): `diffLines`.
- `Scenarios` (scenarios.dfy): worked examples computed on the model: one
  DELETE, MERGE, UNION and UPSERT_BY_KEY rule applied to a small object.

Each loop of the source is a method with a loop invariant. Each method is
proved equal to a recursive specification function, and the properties are
lemmas about those functions:

- the cursor walks of set and delete;
- the `for...in` of `deepMerge`;
- the UNION and UPSERT_BY_KEY loops;
- the loop over the rules;
- the diff loop.

The callbacks without state are functions: the `reduce` of
`getValueAtPath` is the recursive function `Paths.GetAt`, the `.some` of
UNION is the predicate `ArrayRules.Seen`, and the `findIndex` of
UPSERT_BY_KEY is the recursive function `ArrayRules.FindFrom`.

A write into a nested container happens in place in the source. In the model
it builds the container's new value and stores it back under the same key in
its parent, level by level up to the root (`Paths.Rewind`). A failing write is
a `Result` error:

- `TypeError` is what JavaScript throws in module (strict) code when a
  property of a primitive is written, or a property of `null`/`undefined` is
  written or read. Reading a property of a primitive gives `undefined`.
- `ArrayWrite` marks an array write the model does not cover.

The source's helpers behave as follows, and the model follows them:

- The set and delete helpers copy only the top level. Below it they write
  into the nested containers in place; the containers on the path are not
  copied.
- During a set, an intermediate that holds a primitive is not replaced by
  `{}`: only `undefined` and `null` are. The write into the primitive then
  throws a `TypeError` in the model.
- Rules can therefore throw: a primitive on the path of a set or a delete, or
  a `null`/`undefined` item in an UPSERT_BY_KEY list. The first error ends
  the update (`Updater.UpdateErrorStays`).
- UNION compares each incoming element with the growing array, earlier
  incoming elements included. UPSERT_BY_KEY searches the items updated so
  far, including the ones it appended itself.
- UNION and UPSERT_BY_KEY skip the rule when an operand is not an array after
  the `|| []` default. MERGE and REPLACE have no such guard.

## Model

| member | source | states |
|---|---|---|
| Values.Falsy | src/lib/objectUpdater.ts:74-75 | `!v`: `undefined`, `null`, `false`, `0` and `""` |
| Values.FalsyKinds | src/lib/objectUpdater.ts:74-75 | arrays and objects, empty ones too, are truthy; a string is falsy exactly when empty, a number exactly when 0, a boolean exactly when false |
| Values.OrEmpty | src/lib/objectUpdater.ts:125-126 | `x \|\| []` is always truthy; it is an array exactly when `x` is falsy or an array; a truthy `x` is kept |
| Values.Assign | src/lib/objectUpdater.ts:44 | after `o[k] = v` the key reads `v` and every other key reads as before; an existing key keeps its position, a new key is appended |
| Values.AssignUnique | src/lib/objectUpdater.ts:44 | assigning a key keeps an object's keys unique |
| Values.UniqueCons | src/lib/objectUpdater.ts:44 | an entry put in front keeps the keys unique exactly when its key is new |
| Values.AssignSame | src/lib/objectUpdater.ts:44 | writing the value a key already has changes nothing |
| Values.AssignTwice | src/lib/objectUpdater.ts:44 | writing a key twice is writing it once with the second value |
| Values.Remove | src/lib/objectUpdater.ts:66 | after `delete o[k]` the key is absent and every other key reads as before |
| Values.RemoveHasKey | src/lib/objectUpdater.ts:66 | `delete` keeps exactly the other keys |
| Values.RemoveShortens | src/lib/objectUpdater.ts:65-66 | `delete` shortens the object exactly when the key was present |
| Values.RemoveUnique | src/lib/objectUpdater.ts:66 | `delete` keeps the keys unique |
| Values.MemberIndex | src/lib/objectUpdater.ts:24 | `v[k]` on an array or a string: index key `i` reads element `i`, `length` reads the length, and every other key reads `undefined` |
| Values.OwnEntries | src/lib/objectUpdater.ts:79-80 | the own entries `for...in` visits: an object's entries, an array's or a string's elements under their index keys, none for other values |
| Values.Spread | src/lib/objectUpdater.ts:32 | `{...v}` is a plain object: `v` itself when `v` is one, `{}` for `undefined`, `null`, numbers and booleans |
| Values.OwnEntriesUnique | src/lib/objectUpdater.ts:32 | the spread of a value has unique keys |
| Values.OverlayLookup | src/lib/objectUpdater.ts:158 | in `{...a, ...b}` the keys of `b` read `b`'s values and every other key reads `a`'s |
| Values.OverlayHasKey | src/lib/objectUpdater.ts:158 | the keys of `{...a, ...b}` are those of `a` and of `b` |
| Values.OverlayUnique | src/lib/objectUpdater.ts:158 | `{...a, ...b}` has unique keys when `a` has |
| Values.LookupSnoc | src/lib/objectUpdater.ts:161 | looking up a key after an entry is appended finds the earlier entry first |
| Values.Canon | src/lib/objectUpdater.ts:133-135 | the value `JSON.stringify` writes: object entries holding `undefined` dropped, `undefined` array elements as `null` |
| Values.SameJson | src/lib/objectUpdater.ts:133-135 | `JSON.stringify(a) === JSON.stringify(b)`: equal canonical forms |
| Values.CanonDefined | src/lib/objectUpdater.ts:133-135 | the canonical form of a value other than `undefined` holds no `undefined` |
| Values.CanonIdempotent | src/lib/objectUpdater.ts:133-135 | canonicalising twice is canonicalising once, so a value has the JSON text of its canonical form |
| Values.CanonOfDefined | src/lib/objectUpdater.ts:133-135 | on values without `undefined`, equal JSON text is plain equality |
| Values.StrictEq | src/lib/objectUpdater.ts:154 | `a === b` on tree-shaped data: equal primitives, never two objects or arrays |
| Values.StrictEqValues | src/lib/objectUpdater.ts:154 | `===` holds exactly between equal primitives |
| Values.SpreadWellFormed | src/lib/objectUpdater.ts:32 | spreading a value whose objects have unique keys gives unique keys throughout |
| Text.SplitJoin | src/lib/objectUpdater.ts:102 | joining the segments of `s.split(c)` with `c` gives `s` back |
| Text.SplitCount | src/lib/objectUpdater.ts:102 | `s.split(c)` has one more segment than `s` has separators |
| Text.SplitSegments | src/lib/objectUpdater.ts:102 | no segment of `s.split(c)` contains `c` |
| Text.JoinSplit | src/lib/objectUpdater.ts:102 | splitting the join of separator-free segments gives the segments back |
| Text.ParseIndexKey | src/lib/objectUpdater.ts:24 | the key `String(n)` addresses array index `n` |
| Text.IndexKeyInjective | src/lib/objectUpdater.ts:79 | distinct indices have distinct keys |
| Text.IndexKeyOfParse | src/lib/objectUpdater.ts:24 | every key that addresses an array index is that index's canonical spelling |
| Paths.ParsePath | src/lib/objectUpdater.ts:101-103 | no path and `""` address the root; an array path is used as it is; a dotted string gives the segments that join back to it, one per dot plus one, none containing a dot |
| Paths.ParseDotted | src/lib/objectUpdater.ts:101-103 | a dotted path written from dot-free segments parses back to those segments |
| Paths.GetAt | src/lib/objectUpdater.ts:22-26 | `getValueAtPath`: each segment reads a property of the value so far, `undefined` once that value is `undefined` or `null` |
| Paths.GetAtReduce | src/lib/objectUpdater.ts:23-25 | the read is the left fold `reduce` computes: one more segment reads that key of the value so far, or `undefined` past `undefined` or `null` |
| Paths.GetAtConcat | src/lib/objectUpdater.ts:22-26 | reading `p + q` is reading `q` from the value at `p`; past `undefined` or `null` everything reads `undefined` |
| Paths.WriteMember | src/lib/objectUpdater.ts:38-44 | `c[k] = v` succeeds on objects and existing array indices and then reads `v` at `k`; on a primitive it throws a `TypeError` |
| Paths.WriteMemberFrame | src/lib/objectUpdater.ts:44 | a write leaves every other property as it was |
| Paths.WriteMemberTwice | src/lib/objectUpdater.ts:44 | writing a property twice is writing it once with the second value |
| Paths.SetValueAtPath | src/lib/objectUpdater.ts:29-47 | the cursor walk returns what `SetAt` specifies: the value for the empty path, else the write through a shallow copy |
| Paths.SetWalk | src/lib/objectUpdater.ts:32-46 | descending, assigning the last segment and storing back gives the recursive walk `SetIn` |
| Paths.SetWalkDown | src/lib/objectUpdater.ts:35-41 | the loop stops one segment short of the end, or at the error of putting `{}` in place; storing back from the cursor it stops at gives the whole walk |
| Paths.Enter | src/lib/objectUpdater.ts:36-40 | one step enters the member at the next segment, `{}` for a missing one, and keeps the outcome of the whole walk |
| Paths.WriteBack | src/lib/objectUpdater.ts:40-44 | storing a rewritten container into its parents, innermost first, is `Rewind` |
| Paths.SetSucceeds | src/lib/objectUpdater.ts:35-44 | through plain objects and missing intermediates the set never throws and returns a plain object |
| Paths.FreshPath | src/lib/objectUpdater.ts:38 | every path below a fresh `{}` can be written |
| Paths.SetGet | src/lib/objectUpdater.ts:22-47 | reading back the path just set gives the value; at the root the set returns the value itself |
| Paths.SetFrame | src/lib/objectUpdater.ts:35-44 | every path that leaves the written one reads as in the shallow copy |
| Paths.SetAgain | src/lib/objectUpdater.ts:29-47 | setting the same value at the same path again changes nothing |
| Paths.SetWellFormed | src/lib/objectUpdater.ts:29-47 | a set keeps every object's keys unique |
| Paths.RemoveMember | src/lib/objectUpdater.ts:66 | `delete c[k]` succeeds exactly on objects |
| Paths.DeleteValueAtPath | src/lib/objectUpdater.ts:50-70 | the cursor walk returns what `DeleteAt` specifies: `undefined` for the empty path, the unchanged shallow copy when nothing was deleted, else the edited copy |
| Paths.DeleteWalk | src/lib/objectUpdater.ts:53-69 | the loop gives the recursive walk `DeleteIn`, stopping unchanged at a missing intermediate |
| Paths.DeleteLast | src/lib/objectUpdater.ts:64-67 | the last key is deleted unless its value is `undefined`, and the change is stored back |
| Paths.WriteBackEdit | src/lib/objectUpdater.ts:61-66 | storing the edited container into its parents is `RewindEdit` |
| Paths.DeleteGet | src/lib/objectUpdater.ts:64-67 | after a delete nothing is left at the path |
| Paths.DeleteMissing | src/lib/objectUpdater.ts:58-59 | the delete returns the unchanged shallow copy exactly when the path already read `undefined` |
| Paths.DeleteSucceeds | src/lib/objectUpdater.ts:56-67 | through plain objects and missing intermediates the delete never throws and returns a plain object |
| Paths.DeleteFrame | src/lib/objectUpdater.ts:56-67 | every path that leaves the deleted one reads as in the shallow copy |
| Paths.DeleteWellFormed | src/lib/objectUpdater.ts:50-70 | a delete keeps every object's keys unique |
| Merging.DeepMerge | src/lib/objectUpdater.ts:73-91 | the method returns `Merged`: a falsy source gives the target, a falsy target the source, otherwise the merged entries |
| Merging.MergeLoop | src/lib/objectUpdater.ts:77-90 | the `for...in` over the source's own entries, on a copy of the target, gives `MergeEntries` |
| Merging.MergeEntriesStep | src/lib/objectUpdater.ts:81-86 | each visited entry assigns the recursive merge when both sides are plain objects, the source value otherwise |
| Merging.MergedLookup | src/lib/objectUpdater.ts:73-91 | for truthy sides the result is a plain object whose keys are the target's and the source's; a target-only key keeps its value; a source key holds the source value or, where both sides are plain objects, their deep merge |
| Merging.MergedSelf | src/lib/objectUpdater.ts:73-91 | merging an object into itself gives it back |
| Merging.LookupUnique | src/lib/objectUpdater.ts:85 | in an object with unique keys, the key of an entry looks up that entry |
| Merging.MergedWellFormed | src/lib/objectUpdater.ts:73-91 | the merge keeps every object's keys unique |
| ArrayRules.Seen | src/lib/objectUpdater.ts:133-135 | the `.some` guard: some element of the growing array has the incoming element's JSON text |
| ArrayRules.UnionArrays | src/lib/objectUpdater.ts:130-138 | the loop gives `UnionOf`, the elements appended one by one when their JSON text is new |
| ArrayRules.IsSubseqExtend | src/lib/objectUpdater.ts:136 | appending to both sides, or to the longer one, keeps a subsequence |
| ArrayRules.UnionShape | src/lib/objectUpdater.ts:130-138 | the current array is a prefix, the rest is a subsequence of the incoming array, and the length is at most the sum |
| ArrayRules.UnionFresh | src/lib/objectUpdater.ts:133-136 | no appended element has the JSON text of an element before it, so duplicates collapse |
| ArrayRules.UnionCovers | src/lib/objectUpdater.ts:132-138 | every incoming element has an element with its JSON text in the union |
| ArrayRules.UnionOfSeen | src/lib/objectUpdater.ts:133-136 | a union whose elements are all present appends nothing |
| ArrayRules.UnionIdempotent | src/lib/objectUpdater.ts:130-138 | the union of the union with the same incoming array is the union |
| ArrayRules.UnionWellFormed | src/lib/objectUpdater.ts:130-138 | the union keeps every object's keys unique |
| ArrayRules.FindFrom | src/lib/objectUpdater.ts:154 | `findIndex` gives -1 or an index in range, and only throws a `TypeError` |
| ArrayRules.FindFromFound | src/lib/objectUpdater.ts:154 | a found index is the first item whose key value is `===` the sought one |
| ArrayRules.FindFromMissing | src/lib/objectUpdater.ts:154 | -1 means that no item has a `===`-equal key value |
| ArrayRules.FindFromThrows | src/lib/objectUpdater.ts:154 | the search succeeds exactly when every `null`/`undefined` item comes after a match |
| ArrayRules.FindFromObjects | src/lib/objectUpdater.ts:154 | over items that are never `null`/`undefined` the search never throws |
| ArrayRules.ShallowMerge | src/lib/objectUpdater.ts:158 | `{...a, ...b}` is a plain object |
| ArrayRules.ShallowMergeKey | src/lib/objectUpdater.ts:158 | merging into the item it matched keeps that item's key value |
| ArrayRules.ShallowMergeFields | src/lib/objectUpdater.ts:158 | the incoming item's fields win, the others are kept, and the keys stay unique |
| ArrayRules.UpsertByKey | src/lib/objectUpdater.ts:150-163 | the loop gives `Upserted`, merging or appending one item at a time and throwing for a `null` or `undefined` item |
| ArrayRules.UpsertErrorStays | src/lib/objectUpdater.ts:152-154 | once an item throws, the whole loop throws that error |
| ArrayRules.UpsertStepShape | src/lib/objectUpdater.ts:153-162 | over plain objects one item is merged into a match, keeping every key value in place, or appended when no item matches |
| ArrayRules.UpsertedSnoc | src/lib/objectUpdater.ts:152 | the loop takes one step per incoming item |
| ArrayRules.UpsertObjects | src/lib/objectUpdater.ts:150-163 | over plain objects the upsert never throws and gives plain objects |
| ArrayRules.UpsertGrowth | src/lib/objectUpdater.ts:150-163 | the original items keep their key values at their indices and the length grows by at most the number of incoming items |
| ArrayRules.UpsertOrder | src/lib/objectUpdater.ts:159-162 | the key values of the appended items follow the incoming order |
| ArrayRules.UpsertDistinct | src/lib/objectUpdater.ts:150-163 | pairwise distinct key values stay pairwise distinct |
| ArrayRules.UpsertCovers | src/lib/objectUpdater.ts:154-162 | every incoming item with a primitive key value has an item with that key value in the result |
| ArrayRules.UpsertWellFormed | src/lib/objectUpdater.ts:150-163 | the upsert keeps every object's keys unique |
| Updater.KeyProp | src/lib/objectUpdater.ts:147 | `rule.keyProperty \|\| 'id'`: never empty, the given key when there is one |
| Updater.Apply | src/lib/objectUpdater.ts:101-168 | the `switch` for one rule gives `ApplyRule`; IGNORE and an unknown action leave the state as it is |
| Updater.UpdateObject | src/lib/objectUpdater.ts:94-172 | the loop over the rules from `{...original}` gives `Updated`, ending at the first error |
| Updater.UpdateErrorStays | src/lib/objectUpdater.ts:100-169 | once a rule throws, the update throws that error |
| Updater.UpdateAllConcat | src/lib/objectUpdater.ts:100-169 | applying `a + b` is applying `b` to the result of `a` |
| Updater.UpdateNoRules | src/lib/objectUpdater.ts:98 | with no rules the result is `{...original}`, which is `original` for a plain object |
| Updater.UpdateIgnore | src/lib/objectUpdater.ts:110-112 | dropping every IGNORE rule gives the same result |
| Updater.IgnoreOnly | src/lib/objectUpdater.ts:110-112 | a lone IGNORE rule returns the original object |
| Updater.ReplaceRule | src/lib/objectUpdater.ts:106-108 | REPLACE makes the path read the rule's value, the whole result at the root, leaves diverging paths alone, and never throws through plain objects |
| Updater.DeleteRule | src/lib/objectUpdater.ts:114-116 | DELETE at the root gives `undefined`; elsewhere the path reads `undefined` afterwards, diverging paths are unchanged, the copy is returned unchanged exactly when the path read `undefined`, and it never throws through plain objects |
| Updater.MergeRule | src/lib/objectUpdater.ts:118-122 | MERGE stores the deep merge of the current value and the rule's value at the path, and every path that leaves it reads as in the shallow copy |
| Updater.UnionRule | src/lib/objectUpdater.ts:124-142 | UNION stores the union at the path when both operands are arrays, leaving every path that leaves it as in the shallow copy, and is a no-op otherwise |
| Updater.UnionRuleIdempotent | src/lib/objectUpdater.ts:124-142 | applying the same UNION rule twice is applying it once |
| Updater.UpsertRule | src/lib/objectUpdater.ts:144-167 | over plain objects UPSERT_BY_KEY does not throw in the loop; the path holds the upserted list, which keeps the original key values at their indices, grows by at most the incoming items and keeps distinct key values distinct |
| Updater.WithoutIgnore | src/lib/objectUpdater.ts:110-112 | the rules without IGNORE, none longer than the input |
| Updater.UpdateWellFormed | src/lib/objectUpdater.ts:94-172 | updating an object with unique keys by rule values with unique keys gives an object with unique keys |
| Diff.LineAt | src/components/JsonDiff.tsx:29-30 | `lines[i] \|\| ''`: line `i` of a split text, or the empty line past its end |
| Diff.DiffLines | src/components/JsonDiff.tsx:21-42 | the loop gives `DiffRows`, one row per index up to the larger line count |
| Diff.RowsIndex | src/components/JsonDiff.tsx:28-39 | the rows appear in index order, row `i` built from index `i` |
| Diff.DiffShape | src/components/JsonDiff.tsx:22-38 | as many rows as the longer text has lines; row `i` holds line `i` of each text or `''`; it is flagged exactly when the two lines differ |
| Diff.DiffSelf | src/components/JsonDiff.tsx:28-40 | comparing a text with itself flags no row |
| Diff.DiffBeforeColumn | src/components/JsonDiff.tsx:22-38 | the `before` column is the first text's lines, which join back to it, followed by `''` |
| Diff.DiffAfterColumn | src/components/JsonDiff.tsx:23-38 | the `after` column is the second text's lines, which join back to it, followed by `''` |
| Diff.DiffEqualLines | src/components/JsonDiff.tsx:28-33 | for texts with the same number of lines, no row is flagged exactly when the texts are equal |
| Diff.TrailingNewlineHidden | src/components/JsonDiff.tsx:29-32 | a missing line and an empty one are not told apart: "x" and "x\n" differ but no row is flagged |
| Scenarios.Single | src/lib/objectUpdater.ts:98-107 | one rule is applied to the shallow copy |
| Scenarios.KeyPath | src/lib/objectUpdater.ts:101-103 | a dot-free non-empty path string addresses one key |
| Scenarios.DeleteExample | src/lib/objectUpdater.ts:114-116 | `{a: 1, b: 2}` with `a` deleted is `{b: 2}` |
| Scenarios.MergedExample | src/lib/objectUpdater.ts:73-91 | `{a: 1, b: 2}` deep-merged with `{b: 3, c: 4}` is `{a: 1, b: 3, c: 4}` |
| Scenarios.UnionExample | src/lib/objectUpdater.ts:130-138 | `["a", "b"]` united with `["b", "c"]` is `["a", "b", "c"]` |
| Scenarios.FindExample | src/lib/objectUpdater.ts:154 | `findIndex` finds the item with `id` 2 at index 1 |
| Scenarios.ShallowMergeExample | src/lib/objectUpdater.ts:158 | `{id: 2, name: "B"}` merged with `{id: 2, name: "Bee"}` renames the item |
| Scenarios.UpsertExample | src/lib/objectUpdater.ts:150-163 | upserting `id` 2 and 3 into items 1 and 2 updates item 2 and appends item 3 |
| Scenarios.SetOneKey | src/lib/objectUpdater.ts:43-44 | setting an existing single key replaces its value |
| Scenarios.MergeRuleExample | src/lib/objectUpdater.ts:118-122 | MERGE of `{b: 3, c: 4}` at `x` in `{x: {a: 1, b: 2}}` gives `{x: {a: 1, b: 3, c: 4}}` |
| Scenarios.UnionAt | src/lib/objectUpdater.ts:124-140 | a UNION rule on array operands at a one-key path writes the union there |
| Scenarios.UpsertAt | src/lib/objectUpdater.ts:144-165 | an UPSERT_BY_KEY rule on array operands at a one-key path writes the upserted items there |
| Scenarios.UnionRuleExample | src/lib/objectUpdater.ts:124-142 | UNION of `["b", "c"]` at `tags` in `{tags: ["a", "b"]}` gives `{tags: ["a", "b", "c"]}` |
| Scenarios.UpsertRuleExample | src/lib/objectUpdater.ts:144-167 | UPSERT_BY_KEY on `users` updates the matching user and appends the new one |

## Left out

- Heap aliasing: the model works on values. It does not capture that deep
  writes mutate nested containers shared with `original`, nor that a rule with
  a path of at most one segment leaves the caller's `original` untouched.
  `Paths.Rewind` stands in for the in-place writes.
- Numbers are integers (`Num(int)`); floating point, `NaN` and `-0` are not
  modelled.
- Object key order follows insertion only: JavaScript's ordering of
  integer-like keys first is not modelled. Neither are `__proto__` keys and
  properties inherited from prototypes, which read as `undefined`.
- `JSON.stringify` as a text producer is not modelled. UNION's comparison of
  JSON texts is equality of `Canon` values (`undefined` object entries dropped,
  `undefined` array elements read as `null`); number formatting and `toJSON`
  are outside the model.
- Writes into an array at a key that is not an existing index, and `delete`
  of an array element, are reported as the `ArrayWrite` error. JavaScript
  would create holes, extend the array or add a hidden property there.
- Strings are `seq<char>`; reading a character of a string counts UTF-16 code
  units as characters.
- `===` between two objects or arrays is taken to be false
  (`Values.StrictEq`), as for distinct references read out of tree-shaped
  data. Two references to one shared object are not modelled.
- The `useMemo` memoisation, `formatJson` and the rendering of
  `src/components/JsonDiff.tsx` are not part of this model: `Diff.DiffLines`
  takes the two texts directly.
- The user interface components and the external `object_updater` package
  that the pages import are not part of this model.
