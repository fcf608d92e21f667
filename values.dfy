/** The JavaScript values the updater works on, restricted to what JSON can
    describe plus `undefined`. Objects are insertion-ordered lists of
    key/value entries: object spread keeps the position of a key it already
    has and appends a new one, and `JSON.stringify` writes keys in that order. */
module Values {
  import Text

  datatype Json =
    | Undefined
    | Null
    | Bool(b: bool)
    | Num(n: int)
    | Str(s: string)
    | Arr(items: seq<Json>)
    | Obj(fields: seq<(string, Json)>)

  type Fields = seq<(string, Json)>

  /** Why a rule application fails. `TypeError` is what JavaScript throws in
      strict (module) code when a property of a primitive is written, or a
      property of `null` or `undefined` is written or read; `ArrayWrite` is a write into an array at a
      key that is not an existing index (which JavaScript performs silently,
      creating holes, truncating or adding a hidden property) and is outside
      this model. */
  datatype Failure = TypeError | ArrayWrite

  datatype Result<T> = Ok(value: T) | Err(error: Failure)

  /** The values `!v` holds for. */
  predicate Falsy(v: Json)
  {
    v == Undefined || v == Null || v == Bool(false) || v == Num(0) || v == Str("")
  }

  /** Arrays and objects, empty ones included, are truthy; a string is falsy
      exactly when empty, a number exactly when 0, a boolean exactly when false. */
  lemma FalsyKinds(v: Json)
    ensures v.Arr? || v.Obj? ==> !Falsy(v)
    ensures v.Undefined? || v.Null? ==> Falsy(v)
    ensures v.Str? ==> (Falsy(v) <==> v.s == "")
    ensures v.Num? ==> (Falsy(v) <==> v.n == 0)
    ensures v.Bool? ==> (Falsy(v) <==> !v.b)
  {
  }

  /** `v === undefined || v === null`. */
  predicate Nullish(v: Json)
  {
    v.Undefined? || v.Null?
  }

  /** `typeof v === 'object' && v !== null && !Array.isArray(v)`. */
  predicate PlainObject(v: Json)
  {
    v.Obj?
  }

  /** `x || []`: a falsy value defaults to the empty array. */
  function OrEmpty(v: Json): (r: Json)
    ensures Falsy(v) ==> r == Arr([])
    ensures !Falsy(v) ==> r == v
    ensures !Falsy(r)
    ensures r.Arr? <==> Falsy(v) || v.Arr?
  {
    if Falsy(v) then Arr([]) else v
  }

  // ---------------------------------------------------------------------
  // Entry lists

  function Keys(fs: Fields): (r: seq<string>)
    ensures |r| == |fs|
    ensures forall i :: 0 <= i < |fs| ==> r[i] == fs[i].0
  {
    if fs == [] then [] else [fs[0].0] + Keys(fs[1..])
  }

  predicate HasKey(fs: Fields, k: string)
  {
    k in Keys(fs)
  }

  /** No key occurs twice, as in every JavaScript object. */
  predicate UniqueKeys(fs: Fields)
  {
    forall i, j :: 0 <= i < j < |fs| ==> fs[i].0 != fs[j].0
  }

  /** `o[k]` on a plain object: the value of key `k`, or `undefined`. */
  function Lookup(fs: Fields, k: string): (r: Json)
    ensures !HasKey(fs, k) ==> r == Undefined
  {
    if fs == [] then Undefined
    else if fs[0].0 == k then fs[0].1
    else Lookup(fs[1..], k)
  }

  /** `o[k] = v`: an existing key keeps its position, a new key is appended. */
  function Assign(fs: Fields, k: string, v: Json): (r: Fields)
    ensures Lookup(r, k) == v
    ensures forall k' :: k' != k ==> Lookup(r, k') == Lookup(fs, k')
    ensures HasKey(fs, k) ==> Keys(r) == Keys(fs)
    ensures !HasKey(fs, k) ==> r == fs + [(k, v)]
  {
    if fs == [] then [(k, v)]
    else if fs[0].0 == k then [(k, v)] + fs[1..]
    else [fs[0]] + Assign(fs[1..], k, v)
  }

  /** Assigning a key keeps the keys unique. */
  lemma {:induction false} AssignUnique(fs: Fields, k: string, v: Json)
    requires UniqueKeys(fs)
    ensures UniqueKeys(Assign(fs, k, v))
  {
    if fs != [] {
      assert fs == [fs[0]] + fs[1..];
      UniqueCons(fs[0], fs[1..]);
      if fs[0].0 == k {
        KeysCons(fs[0], fs[1..]);
        UniqueCons((k, v), fs[1..]);
      } else {
        var t := Assign(fs[1..], k, v);
        AssignUnique(fs[1..], k, v);
        AssignHasKey(fs[1..], k, v, fs[0].0);
        UniqueCons(fs[0], t);
      }
    }
  }

  /** An entry in front of a list keeps the keys unique exactly when its key
      is new. */
  lemma UniqueCons(e: (string, Json), fs: Fields)
    ensures UniqueKeys([e] + fs) <==> UniqueKeys(fs) && !HasKey(fs, e.0)
  {
    var r := [e] + fs;
    if UniqueKeys(fs) && !HasKey(fs, e.0) {
      forall i, j | 0 <= i < j < |r| ensures r[i].0 != r[j].0 {
        if i == 0 {
          assert Keys(fs)[j - 1] == r[j].0;
        } else {
          assert r[i] == fs[i - 1] && r[j] == fs[j - 1];
        }
      }
    }
    if UniqueKeys(r) {
      forall i, j | 0 <= i < j < |fs| ensures fs[i].0 != fs[j].0 {
        assert r[i + 1] == fs[i] && r[j + 1] == fs[j];
      }
      forall j | 0 <= j < |fs| ensures Keys(fs)[j] != e.0 {
        assert r[0].0 != r[j + 1].0;
      }
    }
  }

  /** `delete o[k]`: the key is gone, every other key keeps its value. */
  function Remove(fs: Fields, k: string): (r: Fields)
    ensures !HasKey(r, k)
    ensures forall k' :: k' != k ==> Lookup(r, k') == Lookup(fs, k')
    ensures |r| <= |fs|
  {
    if fs == [] then []
    else if fs[0].0 == k then Remove(fs[1..], k)
    else [fs[0]] + Remove(fs[1..], k)
  }

  lemma KeysCons(e: (string, Json), fs: Fields)
    ensures Keys([e] + fs) == [e.0] + Keys(fs)
  {
    assert ([e] + fs)[1..] == fs;
  }

  /** Removing a key keeps every other key. */
  lemma {:induction false} RemoveHasKey(fs: Fields, k: string, k': string)
    ensures HasKey(Remove(fs, k), k') <==> HasKey(fs, k') && k' != k
  {
    if fs != [] {
      RemoveHasKey(fs[1..], k, k');
      KeysCons(fs[0], fs[1..]);
      assert fs == [fs[0]] + fs[1..];
      if fs[0].0 != k {
        KeysCons(fs[0], Remove(fs[1..], k));
      }
    }
  }

  /** Removing a key shortens the object exactly when the key was there. */
  lemma {:induction false} RemoveShortens(fs: Fields, k: string)
    ensures HasKey(fs, k) <==> |Remove(fs, k)| < |fs|
  {
    if fs != [] {
      RemoveShortens(fs[1..], k);
      KeysCons(fs[0], fs[1..]);
      assert fs == [fs[0]] + fs[1..];
    }
  }

  /** Removing a key keeps the keys unique. */
  lemma {:induction false} RemoveUnique(fs: Fields, k: string)
    requires UniqueKeys(fs)
    ensures UniqueKeys(Remove(fs, k))
  {
    if fs != [] {
      RemoveUnique(fs[1..], k);
      if fs[0].0 != k {
        var r := Remove(fs, k);
        var t := Remove(fs[1..], k);
        assert r == [fs[0]] + t;
        forall j | 0 < j < |r| ensures r[0].0 != r[j].0 {
          assert r[j] == t[j - 1];
          assert Keys(t)[j - 1] == r[j].0;
          RemoveHasKey(fs[1..], k, r[j].0);
          var m :| 0 <= m < |Keys(fs[1..])| && Keys(fs[1..])[m] == r[j].0;
          assert fs[m + 1].0 == r[j].0;
        }
      }
    }
  }

  /** Writing the value a key already has changes nothing. */
  lemma {:induction false} AssignSame(fs: Fields, k: string)
    requires HasKey(fs, k)
    ensures Assign(fs, k, Lookup(fs, k)) == fs
  {
    if fs[0].0 != k {
      assert Keys(fs) == [fs[0].0] + Keys(fs[1..]);
      AssignSame(fs[1..], k);
    }
  }

  /** Writing a key twice is writing it once with the second value. */
  lemma {:induction false} AssignTwice(fs: Fields, k: string, v: Json, w: Json)
    ensures Assign(Assign(fs, k, v), k, w) == Assign(fs, k, w)
  {
    if fs != [] && fs[0].0 != k {
      AssignTwice(fs[1..], k, v, w);
    }
  }

  /** `{...a, ...b}` on entry lists: the entries of `b` written over those of
      `a`, in `b`'s order. */
  function Overlay(fs: Fields, gs: Fields): Fields
  {
    if gs == [] then fs
    else Assign(Overlay(fs, gs[..|gs| - 1]), gs[|gs| - 1].0, gs[|gs| - 1].1)
  }

  /** In a shallow merge the incoming entries win and every other key keeps
      the value it had. */
  lemma {:induction false} OverlayLookup(fs: Fields, gs: Fields, k: string)
    requires UniqueKeys(gs)
    ensures Lookup(Overlay(fs, gs), k) == if HasKey(gs, k) then Lookup(gs, k) else Lookup(fs, k)
  {
    if gs != [] {
      var init, last := gs[..|gs| - 1], gs[|gs| - 1];
      assert gs == init + [last];
      OverlayLookup(fs, init, k);
      LookupSnoc(init, last, k);
      forall i | 0 <= i < |init| ensures Keys(init)[i] != last.0 {
        assert gs[i].0 != gs[|gs| - 1].0;
      }
    }
  }

  /** The keys of a shallow merge are those of both sides. */
  lemma {:induction false} OverlayHasKey(fs: Fields, gs: Fields, k: string)
    ensures HasKey(Overlay(fs, gs), k) <==> HasKey(fs, k) || HasKey(gs, k)
  {
    if gs != [] {
      var init, last := gs[..|gs| - 1], gs[|gs| - 1];
      assert gs == init + [last];
      OverlayHasKey(fs, init, k);
      LookupSnoc(init, last, k);
      AssignHasKey(Overlay(fs, init), last.0, last.1, k);
    }
  }

  lemma {:induction false} LookupSnoc(fs: Fields, e: (string, Json), k: string)
    ensures Lookup(fs + [e], k) == if HasKey(fs, k) then Lookup(fs, k) else if e.0 == k then e.1 else Undefined
    ensures HasKey(fs + [e], k) <==> HasKey(fs, k) || e.0 == k
  {
    if fs != [] {
      LookupSnoc(fs[1..], e, k);
      assert (fs + [e])[1..] == fs[1..] + [e];
      KeysCons(fs[0], fs[1..]);
      assert fs == [fs[0]] + fs[1..];
      assert Keys(fs + [e]) == Keys(fs) + [e.0];
    } else {
      assert Keys([e]) == [e.0];
    }
  }

  lemma AssignHasKey(fs: Fields, k: string, v: Json, k': string)
    ensures HasKey(Assign(fs, k, v), k') <==> HasKey(fs, k') || k' == k
  {
    if !HasKey(fs, k) {
      assert Keys(fs + [(k, v)]) == Keys(fs) + [k];
    }
  }

  /** A shallow merge over unique keys has unique keys. */
  lemma {:induction false} OverlayUnique(fs: Fields, gs: Fields)
    requires UniqueKeys(fs)
    ensures UniqueKeys(Overlay(fs, gs))
  {
    if gs != [] {
      OverlayUnique(fs, gs[..|gs| - 1]);
      AssignUnique(Overlay(fs, gs[..|gs| - 1]), gs[|gs| - 1].0, gs[|gs| - 1].1);
    }
  }

  // ---------------------------------------------------------------------
  // Property access on any value

  /** `v[k]` for a value that is not `null` or `undefined`: own keys of
      objects, indices and `length` of arrays and strings. Properties a value
      inherits from its prototype (methods) are not modelled and read as
      `undefined`. */
  function Member(v: Json, k: string): (r: Json)
    ensures v.Obj? ==> r == Lookup(v.fields, k)
    ensures Nullish(v) || v.Num? || v.Bool? ==> r == Undefined
  {
    match v
    case Obj(fs) => Lookup(fs, k)
    case Arr(xs) =>
      if k == "length" then Num(|xs|)
      else var i := Text.ParseIndex(k); if 0 <= i < |xs| then xs[i] else Undefined
    case Str(s) =>
      if k == "length" then Num(|s|)
      else var i := Text.ParseIndex(k); if 0 <= i < |s| then Str([s[i]]) else Undefined
    case _ => Undefined
  }

  /** On arrays and strings the index keys read the elements and `length`
      reads the length; every other key reads `undefined`. */
  lemma MemberIndex(v: Json, k: string)
    ensures v.Arr? ==> Member(v, "length") == Num(|v.items|)
    ensures v.Str? ==> Member(v, "length") == Num(|v.s|)
    ensures v.Arr? ==> forall i :: 0 <= i < |v.items| ==> Member(v, Text.IndexKey(i)) == v.items[i]
    ensures v.Str? ==> forall i :: 0 <= i < |v.s| ==> Member(v, Text.IndexKey(i)) == Str([v.s[i]])
    ensures v.Arr? && k != "length" && (forall i :: 0 <= i < |v.items| ==> k != Text.IndexKey(i)) ==>
      Member(v, k) == Undefined
    ensures v.Str? && k != "length" && (forall i :: 0 <= i < |v.s| ==> k != Text.IndexKey(i)) ==>
      Member(v, k) == Undefined
  {
    forall i: nat | true ensures Text.ParseIndex(Text.IndexKey(i)) == i && Text.IndexKey(i) != "length" {
      Text.ParseIndexKey(i);
      assert Text.DigitValue('l') == -1;
    }
    var n := Text.ParseIndex(k);
    if n >= 0 {
      Text.IndexKeyOfParse(k);
    }
  }

  /** The own enumerable entries of a value, in the order object spread and
      `for...in` visit them: an object's entries, an array's elements or a
      string's characters under their index keys, and nothing for other values. */
  function OwnEntries(v: Json): (r: Fields)
    ensures v.Obj? ==> r == v.fields
    ensures v.Arr? ==> |r| == |v.items| && forall i :: 0 <= i < |r| ==> r[i] == (Text.IndexKey(i), v.items[i])
    ensures v.Str? ==> |r| == |v.s| && forall i :: 0 <= i < |r| ==> r[i] == (Text.IndexKey(i), Str([v.s[i]]))
    ensures !v.Obj? && !v.Arr? && !v.Str? ==> r == []
    ensures forall i :: 0 <= i < |r| ==> r[i].1 < v || (v.Str? && r[i].1.Str?)
  {
    match v
    case Obj(fs) => fs
    case Arr(xs) => seq(|xs|, i requires 0 <= i < |xs| => (Text.IndexKey(i), xs[i]))
    case Str(s) => seq(|s|, i requires 0 <= i < |s| => (Text.IndexKey(i), Str([s[i]])))
    case _ => []
  }

  /** `{...v}`: a fresh plain object holding the own entries of `v`. */
  function Spread(v: Json): (r: Json)
    ensures r.Obj?
    ensures v.Obj? ==> r == v
    ensures Nullish(v) || v.Num? || v.Bool? ==> r == Obj([])
  {
    Obj(OwnEntries(v))
  }

  /** Index keys are distinct, so every spread has unique keys when objects do. */
  lemma OwnEntriesUnique(v: Json)
    requires v.Obj? ==> UniqueKeys(v.fields)
    ensures UniqueKeys(OwnEntries(v))
  {
    var r := OwnEntries(v);
    if v.Arr? || v.Str? {
      forall i, j | 0 <= i < j < |r| ensures r[i].0 != r[j].0 {
        if r[i].0 == r[j].0 {
          Text.IndexKeyInjective(i, j);
        }
      }
    }
  }

  /** Every object in `v`, at any depth, has unique keys (as JSON.parse
      and every object literal produce). */
  predicate WellFormed(v: Json)
  {
    match v
    case Arr(xs) => forall i :: 0 <= i < |xs| ==> WellFormed(xs[i])
    case Obj(fs) => UniqueKeys(fs) && forall i :: 0 <= i < |fs| ==> WellFormed(fs[i].1)
    case _ => true
  }

  predicate WellFormedFields(fs: Fields)
  {
    UniqueKeys(fs) && forall i :: 0 <= i < |fs| ==> WellFormed(fs[i].1)
  }

  /** A value looked up in a well-formed object is well formed. */
  lemma LookupWellFormed(fs: Fields, k: string)
    requires forall i :: 0 <= i < |fs| ==> WellFormed(fs[i].1)
    ensures WellFormed(Lookup(fs, k))
  {
    if fs != [] && fs[0].0 != k {
      LookupWellFormed(fs[1..], k);
    }
  }

  lemma AssignWellFormed(fs: Fields, k: string, v: Json)
    requires WellFormedFields(fs) && WellFormed(v)
    ensures WellFormedFields(Assign(fs, k, v))
  {
    AssignUnique(fs, k, v);
    AssignValuesWellFormed(fs, k, v);
  }

  lemma {:induction false} AssignValuesWellFormed(fs: Fields, k: string, v: Json)
    requires forall i :: 0 <= i < |fs| ==> WellFormed(fs[i].1)
    requires WellFormed(v)
    ensures forall i :: 0 <= i < |Assign(fs, k, v)| ==> WellFormed(Assign(fs, k, v)[i].1)
  {
    if fs != [] {
      var r := Assign(fs, k, v);
      if fs[0].0 == k {
        assert r == [(k, v)] + fs[1..];
        forall i | 0 <= i < |r| ensures WellFormed(r[i].1) {
          if i > 0 { assert r[i] == fs[i]; }
        }
      } else {
        var t := Assign(fs[1..], k, v);
        AssignValuesWellFormed(fs[1..], k, v);
        assert r == [fs[0]] + t;
        forall i | 0 <= i < |r| ensures WellFormed(r[i].1) {
          if i > 0 { assert r[i] == t[i - 1]; }
        }
      }
    }
  }

  lemma RemoveWellFormed(fs: Fields, k: string)
    requires WellFormedFields(fs)
    ensures WellFormedFields(Remove(fs, k))
  {
    RemoveUnique(fs, k);
    if fs != [] {
      RemoveWellFormed(fs[1..], k);
      var r := Remove(fs, k);
      if fs[0].0 != k {
        assert r == [fs[0]] + Remove(fs[1..], k);
        forall i | 0 <= i < |r| ensures WellFormed(r[i].1) {
          if i > 0 { assert r[i] == Remove(fs[1..], k)[i - 1]; }
        }
      }
    }
  }

  lemma SpreadWellFormed(v: Json)
    requires WellFormed(v)
    ensures WellFormed(Spread(v))
  {
    OwnEntriesUnique(v);
  }

  lemma MemberWellFormed(v: Json, k: string)
    requires WellFormed(v)
    ensures WellFormed(Member(v, k))
  {
    if v.Obj? {
      LookupWellFormed(v.fields, k);
    }
  }

  lemma OverlayWellFormed(fs: Fields, gs: Fields)
    requires WellFormedFields(fs)
    requires forall i :: 0 <= i < |gs| ==> WellFormed(gs[i].1)
    ensures WellFormedFields(Overlay(fs, gs))
  {
    if gs != [] {
      OverlayWellFormed(fs, gs[..|gs| - 1]);
      AssignWellFormed(Overlay(fs, gs[..|gs| - 1]), gs[|gs| - 1].0, gs[|gs| - 1].1);
    }
  }

  // ---------------------------------------------------------------------
  // Equality as UNION and UPSERT_BY_KEY see it

  /** The value `JSON.stringify` writes out: object entries whose value is
      `undefined` are dropped and `undefined` array elements become `null`.
      Two values have the same JSON text exactly when their `Canon` agree. */
  function Canon(v: Json): Json
  {
    match v
    case Arr(xs) => Arr(CanonItems(xs))
    case Obj(fs) => Obj(CanonFields(fs))
    case _ => v
  }

  function CanonItems(xs: seq<Json>): (r: seq<Json>)
    ensures |r| == |xs|
  {
    if xs == [] then [] else [if xs[0].Undefined? then Null else Canon(xs[0])] + CanonItems(xs[1..])
  }

  function CanonFields(fs: Fields): Fields
  {
    if fs == [] then []
    else
      var e := fs[0];
      assert e.1 < e;
      (if e.1.Undefined? then [] else [(e.0, Canon(e.1))]) + CanonFields(fs[1..])
  }

  /** `JSON.stringify(a) === JSON.stringify(b)`. */
  predicate SameJson(a: Json, b: Json)
  {
    Canon(a) == Canon(b)
  }

  /** No `undefined` anywhere inside (the values JSON.parse produces). */
  predicate UndefinedFree(v: Json)
  {
    match v
    case Undefined => false
    case Arr(xs) => forall i :: 0 <= i < |xs| ==> UndefinedFree(xs[i])
    case Obj(fs) => forall i :: 0 <= i < |fs| ==> UndefinedFree(fs[i].1)
    case _ => true
  }

  /** On values without `undefined`, equal JSON text is plain equality. */
  lemma {:induction false} CanonOfDefined(v: Json)
    requires UndefinedFree(v)
    ensures Canon(v) == v
    decreases v, 1
  {
    match v
    case Arr(xs) => CanonItemsOfDefined(xs);
    case Obj(fs) => CanonFieldsOfDefined(fs);
    case _ =>
  }

  lemma {:induction false} CanonItemsOfDefined(xs: seq<Json>)
    requires forall i :: 0 <= i < |xs| ==> UndefinedFree(xs[i])
    ensures CanonItems(xs) == xs
    decreases xs, 0
  {
    if xs != [] {
      CanonOfDefined(xs[0]);
      CanonItemsOfDefined(xs[1..]);
    }
  }

  lemma {:induction false} CanonFieldsOfDefined(fs: Fields)
    requires forall i :: 0 <= i < |fs| ==> UndefinedFree(fs[i].1)
    ensures CanonFields(fs) == fs
    decreases fs, 0
  {
    if fs != [] {
      var e := fs[0];
      assert e.1 < e;
      CanonOfDefined(e.1);
      CanonFieldsOfDefined(fs[1..]);
    }
  }

  /** The canonical form of a value other than `undefined` holds no `undefined`. */
  lemma {:induction false} CanonDefined(v: Json)
    requires !v.Undefined?
    ensures UndefinedFree(Canon(v))
    decreases v, 1
  {
    match v
    case Arr(xs) => CanonItemsDefined(xs);
    case Obj(fs) => CanonFieldsDefined(fs);
    case _ =>
  }

  lemma {:induction false} CanonItemsDefined(xs: seq<Json>)
    ensures forall i :: 0 <= i < |CanonItems(xs)| ==> UndefinedFree(CanonItems(xs)[i])
    decreases xs, 0
  {
    if xs != [] {
      if !xs[0].Undefined? {
        CanonDefined(xs[0]);
      }
      CanonItemsDefined(xs[1..]);
      var r := CanonItems(xs);
      assert r == [if xs[0].Undefined? then Null else Canon(xs[0])] + CanonItems(xs[1..]);
      forall i | 0 < i < |r| ensures UndefinedFree(r[i]) {
        assert r[i] == CanonItems(xs[1..])[i - 1];
      }
    }
  }

  lemma {:induction false} CanonFieldsDefined(fs: Fields)
    ensures forall i :: 0 <= i < |CanonFields(fs)| ==> UndefinedFree(CanonFields(fs)[i].1)
    decreases fs, 0
  {
    if fs != [] {
      var e := fs[0];
      assert e.1 < e;
      if !e.1.Undefined? {
        CanonDefined(e.1);
      }
      CanonFieldsDefined(fs[1..]);
      var head := if e.1.Undefined? then [] else [(e.0, Canon(e.1))];
      var r := CanonFields(fs);
      assert r == head + CanonFields(fs[1..]);
      forall i | 0 <= i < |r| ensures UndefinedFree(r[i].1) {
        if i >= |head| {
          assert r[i] == CanonFields(fs[1..])[i - |head|];
        }
      }
    }
  }

  /** `Canon` is a normal form: canonicalising twice is canonicalising once,
      so every value has the JSON text of its canonical form. */
  lemma CanonIdempotent(v: Json)
    ensures Canon(Canon(v)) == Canon(v)
    ensures SameJson(Canon(v), v)
  {
    if !v.Undefined? {
      CanonDefined(v);
      CanonOfDefined(Canon(v));
    }
  }

  /** `a === b` on values read out of tree-shaped JSON data: primitives are
      compared by value, while two objects or arrays are never the same
      reference. */
  predicate StrictEq(a: Json, b: Json)
  {
    match a
    case Undefined => b.Undefined?
    case Null => b.Null?
    case Bool(x) => b.Bool? && b.b == x
    case Num(x) => b.Num? && b.n == x
    case Str(x) => b.Str? && b.s == x
    case _ => false
  }

  /** Primitives are the values `===` can find equal. */
  lemma StrictEqValues(a: Json, b: Json)
    ensures StrictEq(a, b) <==> a == b && !a.Arr? && !a.Obj?
  {
  }
}
