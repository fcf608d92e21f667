/** Path addressing into nested values: parsing a rule's path and the
    get / set / delete helpers of the updater. The helpers walk a cursor down
    a shallow copy of the root and write or delete in place. Each is specified
    here by a recursive function on values, where writing a nested container
    in place becomes building its new value and storing it back under the
    same key; the cursor walks are methods proved equal to those functions. */
module Paths {
  import opened Values
  import Text

  /** `rule.path`: absent, a dotted string, or an array of segments. */
  datatype PathSpec = NoPath | Dotted(s: string) | Segments(segs: seq<string>)

  /** The segments a rule addresses. A dotted string is split on '.', empty
      segments included; an array is used as it is; an absent path and the
      empty string (both falsy) address the root. */
  function ParsePath(p: PathSpec): (r: seq<string>)
    ensures p.NoPath? || p == Dotted("") ==> r == []
    ensures p.Segments? ==> r == p.segs
    ensures p.Dotted? && p.s != "" ==>
      Text.Join(r, '.') == p.s && |r| == Text.Count(p.s, '.') + 1 &&
      forall i :: 0 <= i < |r| ==> '.' !in r[i]
  {
    match p
    case NoPath => []
    case Dotted(s) =>
      if s == "" then []
      else
        Text.SplitJoin(s, '.');
        Text.SplitCount(s, '.');
        Text.SplitSegments(s, '.');
        Text.Split(s, '.')
    case Segments(segs) => segs
  }

  /** A dotted path written from dot-free segments parses back to them. */
  lemma ParseDotted(segs: seq<string>)
    requires |segs| >= 1 && Text.Join(segs, '.') != ""
    requires forall i :: 0 <= i < |segs| ==> '.' !in segs[i]
    ensures ParsePath(Dotted(Text.Join(segs, '.'))) == segs
  {
    Text.JoinSplit(segs, '.');
  }

  // ---------------------------------------------------------------------
  // getValueAtPath

  /** The value at `path`, reading each segment as a property and giving
      `undefined` once an intermediate is `undefined` or `null`. */
  function GetAt(v: Json, path: seq<string>): Json
    decreases |path|
  {
    if path == [] then v
    else if Nullish(v) then Undefined
    else GetAt(Member(v, path[0]), path[1..])
  }

  /** Reading a longer path is reading the rest of it from the value at the prefix. */
  lemma {:induction false} GetAtConcat(v: Json, p: seq<string>, q: seq<string>)
    ensures GetAt(v, p + q) == GetAt(GetAt(v, p), q)
    decreases |p|
  {
    if p != [] {
      assert (p + q)[0] == p[0] && (p + q)[1..] == p[1..] + q;
      if !Nullish(v) {
        GetAtConcat(Member(v, p[0]), p[1..], q);
      } else {
        GetAtUndefined(q);
      }
    } else {
      assert p + q == q;
    }
  }

  /** The read is a left fold over the segments, as `path.reduce` computes
      it: one more segment reads that key of the value so far, or gives
      `undefined` when that value is `undefined` or `null`. */
  lemma GetAtReduce(v: Json, p: seq<string>, k: string)
    ensures GetAt(v, p + [k]) == if Nullish(GetAt(v, p)) then Undefined else Member(GetAt(v, p), k)
  {
    GetAtConcat(v, p, [k]);
  }

  lemma GetAtUndefined(q: seq<string>)
    ensures GetAt(Undefined, q) == Undefined
  {
  }

  // ---------------------------------------------------------------------
  // Writing one property

  /** The containers a property can be written into: any key of an object,
      an existing index of an array. */
  predicate CanWrite(c: Json, k: string)
  {
    c.Obj? || (c.Arr? && 0 <= Text.ParseIndex(k) < |c.items|)
  }

  /** `c[k] = v`. Primitives throw; other writes into arrays are left out. */
  function WriteMember(c: Json, k: string, v: Json): (r: Result<Json>)
    ensures r.Ok? <==> CanWrite(c, k)
    ensures r.Ok? ==> Member(r.value, k) == v && r.value.Obj? == c.Obj? && r.value.Arr? == c.Arr?
    ensures r.Err? ==> r.error == (if c.Arr? then ArrayWrite else TypeError)
  {
    match c
    case Obj(fs) => Ok(Obj(Assign(fs, k, v)))
    case Arr(xs) =>
      var i := Text.ParseIndex(k);
      if 0 <= i < |xs| then Ok(Arr(xs[i := v])) else Err(ArrayWrite)
    case _ => Err(TypeError)
  }

  /** A write leaves every other property as it was. */
  lemma WriteMemberFrame(c: Json, k: string, v: Json, k': string)
    requires WriteMember(c, k, v).Ok? && k' != k
    ensures Member(WriteMember(c, k, v).value, k') == Member(c, k')
  {
    if c.Arr? {
      var i, j := Text.ParseIndex(k), Text.ParseIndex(k');
      if i == j && j >= 0 {
        Text.IndexKeyOfParse(k);
        Text.IndexKeyOfParse(k');
      }
    }
  }

  /** Writing a property twice is writing it once with the second value. */
  lemma WriteMemberTwice(c: Json, k: string, v: Json, w: Json)
    requires WriteMember(c, k, v).Ok?
    ensures WriteMember(WriteMember(c, k, v).value, k, w) == WriteMember(c, k, w)
  {
    if c.Obj? {
      AssignTwice(c.fields, k, v, w);
    } else {
      var i := Text.ParseIndex(k);
      assert c.items[i := v][i := w] == c.items[i := w];
    }
  }

  // ---------------------------------------------------------------------
  // setValueAtPath

  /** The walk of `setValueAtPath` from the container `c`: an intermediate that
      is `undefined` or `null` is first replaced by `{}`, any other is entered
      as it is, and the last segment is assigned. */
  function SetIn(c: Json, path: seq<string>, v: Json): Result<Json>
    requires path != []
    decreases |path|
  {
    var key := path[0];
    if |path| == 1 then WriteMember(c, key, v)
    else
      var m := Member(c, key);
      if Nullish(m) then
        match WriteMember(c, key, Obj([]))
        case Err(e) => Err(e)
        case Ok(_) =>
          match SetIn(Obj([]), path[1..], v)
          case Err(e) => Err(e)
          case Ok(child) => WriteMember(c, key, child)
      else
        match SetIn(m, path[1..], v)
        case Err(e) => Err(e)
        case Ok(child) => WriteMember(c, key, child)
  }

  /** `setValueAtPath(obj, path, value)`: the value itself for the empty path,
      otherwise the walk over a shallow copy `{...obj}`. */
  function SetAt(o: Json, path: seq<string>, v: Json): Result<Json>
  {
    if path == [] then Ok(v) else SetIn(Spread(o), path, v)
  }

  /** Every container the walk enters before the last segment is a plain
      object, or the walk reaches an intermediate that is `undefined` or `null`. */
  predicate ObjectPath(c: Json, path: seq<string>)
    requires path != []
    decreases |path|
  {
    c.Obj? && (|path| == 1 || Nullish(Member(c, path[0])) || ObjectPath(Member(c, path[0]), path[1..]))
  }

  /** Below a fresh `{}` every write succeeds. */
  lemma {:induction false} FreshPath(path: seq<string>)
    requires path != []
    ensures ObjectPath(Obj([]), path)
  {
  }

  /** The walk succeeds when it meets only plain objects. */
  lemma {:induction false} SetInSucceeds(c: Json, path: seq<string>, v: Json)
    requires path != [] && ObjectPath(c, path)
    ensures SetIn(c, path, v).Ok? && SetIn(c, path, v).value.Obj?
    decreases |path|
  {
    if |path| > 1 {
      var m := Member(c, path[0]);
      if Nullish(m) {
        FreshPath(path[1..]);
        SetInSucceeds(Obj([]), path[1..], v);
      } else {
        SetInSucceeds(m, path[1..], v);
      }
    }
  }

  /** Setting through plain objects (and missing intermediates) never fails. */
  lemma SetSucceeds(o: Json, path: seq<string>, v: Json)
    requires path != [] && ObjectPath(Spread(o), path)
    ensures SetAt(o, path, v).Ok? && SetAt(o, path, v).value.Obj?
  {
    SetInSucceeds(Spread(o), path, v);
  }

  lemma {:induction false} SetInGet(c: Json, path: seq<string>, v: Json)
    requires path != [] && SetIn(c, path, v).Ok?
    ensures GetAt(SetIn(c, path, v).value, path) == v
    ensures !Nullish(SetIn(c, path, v).value)
    decreases |path|
  {
    if |path| > 1 {
      var m := Member(c, path[0]);
      if Nullish(m) {
        SetInGet(Obj([]), path[1..], v);
      } else {
        SetInGet(m, path[1..], v);
      }
    }
  }

  /** Reading back the path just written gives the written value; for the
      empty path the write returns the value itself. */
  lemma SetGet(o: Json, path: seq<string>, v: Json)
    requires SetAt(o, path, v).Ok?
    ensures GetAt(SetAt(o, path, v).value, path) == v
  {
    if path != [] {
      SetInGet(Spread(o), path, v);
    }
  }

  /** Paths that leave `p` at some segment (neither is a prefix of the other). */
  predicate Diverges(q: seq<string>, p: seq<string>)
  {
    q != [] && p != [] && (q[0] != p[0] || Diverges(q[1..], p[1..]))
  }

  lemma {:induction false} SetInFrame(c: Json, path: seq<string>, v: Json, q: seq<string>)
    requires path != [] && SetIn(c, path, v).Ok? && Diverges(q, path)
    ensures !Nullish(SetIn(c, path, v).value)
    ensures GetAt(SetIn(c, path, v).value, q) == GetAt(c, q)
    decreases |path|
  {
    var r := SetIn(c, path, v).value;
    SetInGet(c, path, v);
    var key := path[0];
    assert !Nullish(c);
    if q[0] != key {
      if |path| == 1 {
        WriteMemberFrame(c, key, v, q[0]);
      } else {
        var m := Member(c, key);
        var child := SetIn(if Nullish(m) then Obj([]) else m, path[1..], v).value;
        WriteMemberFrame(c, key, child, q[0]);
      }
    } else {
      var m := Member(c, key);
      if Nullish(m) {
        SetInFrame(Obj([]), path[1..], v, q[1..]);
      } else {
        SetInFrame(m, path[1..], v, q[1..]);
      }
    }
  }

  /** Nothing off the written path changes: every path that leaves it reads
      the same as in the shallow copy of the input. */
  lemma SetFrame(o: Json, path: seq<string>, v: Json, q: seq<string>)
    requires SetAt(o, path, v).Ok? && Diverges(q, path)
    ensures GetAt(SetAt(o, path, v).value, q) == GetAt(Spread(o), q)
  {
    SetInFrame(Spread(o), path, v, q);
  }

  lemma {:induction false} SetInAgain(c: Json, path: seq<string>, v: Json)
    requires path != [] && SetIn(c, path, v).Ok?
    ensures SetIn(SetIn(c, path, v).value, path, v) == SetIn(c, path, v)
    decreases |path|
  {
    var key := path[0];
    if |path| == 1 {
      WriteMemberTwice(c, key, v, v);
    } else {
      var m := Member(c, key);
      var c0 := if Nullish(m) then Obj([]) else m;
      var child := SetIn(c0, path[1..], v).value;
      SetInAgain(c0, path[1..], v);
      SetInGet(c0, path[1..], v);
      WriteMemberTwice(c, key, child, child);
    }
  }

  /** Writing the same value at the same path again changes nothing. */
  lemma SetAgain(o: Json, path: seq<string>, v: Json)
    requires SetAt(o, path, v).Ok?
    ensures SetAt(SetAt(o, path, v).value, path, v) == SetAt(o, path, v)
  {
    if path != [] {
      SetInAgain(Spread(o), path, v);
      SetInGet(Spread(o), path, v);
      WriteMemberShape(Spread(o), path, v);
    }
  }

  /** The walk from a plain object returns a plain object. */
  lemma WriteMemberShape(c: Json, path: seq<string>, v: Json)
    requires path != [] && c.Obj? && SetIn(c, path, v).Ok?
    ensures SetIn(c, path, v).value.Obj?
  {
  }

  // ---------------------------------------------------------------------
  // deleteValueAtPath

  /** What the walk of a delete did to a container. */
  datatype Edit = Same | Changed(v: Json)

  /** `delete c[k]`: removes an object key; strings throw, and deleting an
      array element (which leaves a hole) is left out. */
  function RemoveMember(c: Json, k: string): (r: Result<Json>)
    ensures r.Ok? <==> c.Obj?
  {
    match c
    case Obj(fs) => Ok(Obj(Remove(fs, k)))
    case Arr(_) => Err(ArrayWrite)
    case _ => Err(TypeError)
  }

  /** The walk of `deleteValueAtPath` from the container `c`: it stops without
      change at an intermediate that is `undefined` or `null`, and deletes the
      last key only when its value is not `undefined`. */
  function DeleteIn(c: Json, path: seq<string>): Result<Edit>
    requires path != []
    decreases |path|
  {
    var key := path[0];
    var m := Member(c, key);
    if |path| == 1 then
      if m.Undefined? then Ok(Same)
      else
        match RemoveMember(c, key)
        case Err(e) => Err(e)
        case Ok(c') => Ok(Changed(c'))
    else if Nullish(m) then Ok(Same)
    else
      match DeleteIn(m, path[1..])
      case Err(e) => Err(e)
      case Ok(Same) => Ok(Same)
      case Ok(Changed(m')) =>
        match WriteMember(c, key, m')
        case Err(e) => Err(e)
        case Ok(c') => Ok(Changed(c'))
  }

  /** `deleteValueAtPath(obj, path)`: `undefined` for the empty path,
      otherwise the walk over a shallow copy `{...obj}`. */
  function DeleteAt(o: Json, path: seq<string>): Result<Json>
  {
    if path == [] then Ok(Undefined)
    else
      match DeleteIn(Spread(o), path)
      case Err(e) => Err(e)
      case Ok(Same) => Ok(Spread(o))
      case Ok(Changed(r)) => Ok(r)
  }

  lemma {:induction false} DeleteInSame(c: Json, path: seq<string>)
    requires path != [] && !Nullish(c)
    ensures DeleteIn(c, path) == Ok(Same) <==> GetAt(c, path) == Undefined
    ensures DeleteIn(c, path).Ok? && DeleteIn(c, path).value.Changed? ==>
      GetAt(DeleteIn(c, path).value.v, path) == Undefined && !Nullish(DeleteIn(c, path).value.v)
    decreases |path|
  {
    var key := path[0];
    var m := Member(c, key);
    if |path| > 1 && !Nullish(m) {
      DeleteInSame(m, path[1..]);
    }
  }

  /** After a delete nothing is left at the path. */
  lemma DeleteGet(o: Json, path: seq<string>)
    requires path != [] && DeleteAt(o, path).Ok?
    ensures GetAt(DeleteAt(o, path).value, path) == Undefined
  {
    DeleteInSame(Spread(o), path);
  }

  /** Deleting where nothing is (a missing intermediate, or a last key whose
      value is `undefined`) returns the unchanged shallow copy, and only then. */
  lemma DeleteMissing(o: Json, path: seq<string>)
    requires path != []
    ensures DeleteAt(o, path) == Ok(Spread(o)) <==> GetAt(Spread(o), path) == Undefined
  {
    DeleteInSame(Spread(o), path);
  }

  lemma {:induction false} DeleteInSucceeds(c: Json, path: seq<string>)
    requires path != [] && ObjectPath(c, path)
    ensures DeleteIn(c, path).Ok?
    ensures DeleteIn(c, path).Ok? && DeleteIn(c, path).value.Changed? ==> DeleteIn(c, path).value.v.Obj?
    decreases |path|
  {
    if |path| > 1 {
      var m := Member(c, path[0]);
      if !Nullish(m) {
        DeleteInSucceeds(m, path[1..]);
      }
    }
  }

  /** Deleting through plain objects (and missing intermediates) never fails. */
  lemma DeleteSucceeds(o: Json, path: seq<string>)
    requires path != [] && ObjectPath(Spread(o), path)
    ensures DeleteAt(o, path).Ok? && DeleteAt(o, path).value.Obj?
  {
    DeleteInSucceeds(Spread(o), path);
  }

  lemma {:induction false} DeleteInFrame(c: Json, path: seq<string>, q: seq<string>)
    requires path != [] && !Nullish(c) && Diverges(q, path)
    requires DeleteIn(c, path).Ok? && DeleteIn(c, path).value.Changed?
    ensures GetAt(DeleteIn(c, path).value.v, q) == GetAt(c, q)
    decreases |path|
  {
    var key := path[0];
    var m := Member(c, key);
    var r := DeleteIn(c, path).value.v;
    DeleteInSame(c, path);
    if |path| == 1 {
      if q[0] != key {
        assert Member(r, q[0]) == Member(c, q[0]);
      }
    } else {
      var m' := DeleteIn(m, path[1..]).value.v;
      if q[0] != key {
        WriteMemberFrame(c, key, m', q[0]);
      } else {
        DeleteInFrame(m, path[1..], q[1..]);
      }
    }
  }

  /** Nothing off the deleted path changes. */
  lemma DeleteFrame(o: Json, path: seq<string>, q: seq<string>)
    requires path != [] && DeleteAt(o, path).Ok? && Diverges(q, path)
    ensures GetAt(DeleteAt(o, path).value, q) == GetAt(Spread(o), q)
  {
    if DeleteIn(Spread(o), path).value.Changed? {
      DeleteInFrame(Spread(o), path, q);
    }
  }

  // ---------------------------------------------------------------------
  // Well-formedness is kept

  lemma WriteMemberWellFormed(c: Json, k: string, v: Json)
    requires WellFormed(c) && WellFormed(v) && WriteMember(c, k, v).Ok?
    ensures WellFormed(WriteMember(c, k, v).value)
  {
    if c.Obj? {
      AssignWellFormed(c.fields, k, v);
    }
  }

  lemma {:induction false} SetInWellFormed(c: Json, path: seq<string>, v: Json)
    requires path != [] && WellFormed(c) && WellFormed(v) && SetIn(c, path, v).Ok?
    ensures WellFormed(SetIn(c, path, v).value)
    decreases |path|
  {
    var key := path[0];
    if |path| == 1 {
      WriteMemberWellFormed(c, key, v);
    } else {
      var m := Member(c, key);
      MemberWellFormed(c, key);
      var c0 := if Nullish(m) then Obj([]) else m;
      SetInWellFormed(c0, path[1..], v);
      WriteMemberWellFormed(c, key, SetIn(c0, path[1..], v).value);
    }
  }

  /** Writing a well-formed value into a well-formed one keeps every object's
      keys unique. */
  lemma SetWellFormed(o: Json, path: seq<string>, v: Json)
    requires WellFormed(o) && WellFormed(v) && SetAt(o, path, v).Ok?
    ensures WellFormed(SetAt(o, path, v).value)
  {
    if path != [] {
      SpreadWellFormed(o);
      SetInWellFormed(Spread(o), path, v);
    }
  }

  lemma {:induction false} DeleteInWellFormed(c: Json, path: seq<string>)
    requires path != [] && WellFormed(c)
    requires DeleteIn(c, path).Ok? && DeleteIn(c, path).value.Changed?
    ensures WellFormed(DeleteIn(c, path).value.v)
    decreases |path|
  {
    var key := path[0];
    var m := Member(c, key);
    MemberWellFormed(c, key);
    if |path| == 1 {
      RemoveWellFormed(c.fields, key);
    } else {
      DeleteInWellFormed(m, path[1..]);
      WriteMemberWellFormed(c, key, DeleteIn(m, path[1..]).value.v);
    }
  }

  /** Deleting keeps every object's keys unique. */
  lemma DeleteWellFormed(o: Json, path: seq<string>)
    requires WellFormed(o) && DeleteAt(o, path).Ok?
    ensures WellFormed(DeleteAt(o, path).value)
  {
    if path != [] {
      SpreadWellFormed(o);
      if DeleteIn(Spread(o), path).value.Changed? {
        DeleteInWellFormed(Spread(o), path);
      }
    }
  }

  // ---------------------------------------------------------------------
  // The cursor walks of setValueAtPath and deleteValueAtPath

  /** Storing the outcome of a walk back into the containers it went through:
      `parents[j]` is the container entered at depth `j`, and the result for
      the container at depth `|parents|` is written into the last parent
      under its segment, and so on up to the root. An error is passed up
      unchanged. */
  function Rewind(parents: seq<Json>, path: seq<string>, r: Result<Json>): Result<Json>
    requires |parents| <= |path|
    decreases |parents|
  {
    if parents == [] then r
    else
      match r
      case Err(e) => Err(e)
      case Ok(child) =>
        var n := |parents| - 1;
        Rewind(parents[..n], path, WriteMember(parents[n], path[n], child))
  }

  /** The container the walk enters below `c` at `key`: `{}` in place of an
      `undefined` or `null` member. */
  function Descend(c: Json, key: string): (r: Json)
    ensures !Nullish(r)
  {
    var m := Member(c, key);
    if Nullish(m) then Obj([]) else m
  }

  /** Where the descent stops: the containers above, and the one it is in. */
  datatype Cursor = Cursor(parents: seq<Json>, current: Json)

  /** One level of the write-back. */
  lemma RewindStep(parents: seq<Json>, path: seq<string>, i: nat, child: Json)
    requires i < |parents| <= |path|
    ensures Rewind(parents[..i + 1], path, Ok(child)) == Rewind(parents[..i], path, WriteMember(parents[i], path[i], child))
  {
    assert parents[..i + 1][..i] == parents[..i];
  }

  /** An error is passed up unchanged. */
  lemma RewindErr(parents: seq<Json>, path: seq<string>, e: Failure)
    requires |parents| <= |path|
    ensures Rewind(parents, path, Err(e)) == Err(e)
  {
  }

  /** Entering one more container keeps the outcome of the whole walk. */
  lemma SetWalkStep(parents: seq<Json>, current: Json, path: seq<string>, value: Json)
    requires |parents| < |path| - 1
    requires !Nullish(Member(current, path[|parents|])) || WriteMember(current, path[|parents|], Obj([])).Ok?
    ensures var i := |parents|;
      var next := Descend(current, path[i]);
      Rewind(parents + [current], path, SetIn(next, path[i + 1..], value)) ==
      Rewind(parents, path, SetIn(current, path[i..], value))
  {
    var i := |parents|;
    var key := path[i];
    var next := Descend(current, key);
    assert path[i..][0] == key && path[i..][1..] == path[i + 1..];
    var sub := SetIn(next, path[i + 1..], value);
    assert (parents + [current])[..i] == parents;
    if sub.Ok? {
      assert SetIn(current, path[i..], value) == WriteMember(current, key, sub.value);
    } else {
      assert SetIn(current, path[i..], value) == Err(sub.error);
      RewindErr(parents, path, sub.error);
    }
  }

  /** A `{}` that cannot be put in place of a missing intermediate stops the walk. */
  lemma SetWalkBlocked(parents: seq<Json>, current: Json, path: seq<string>, value: Json)
    requires |parents| < |path| - 1
    requires Nullish(Member(current, path[|parents|])) && WriteMember(current, path[|parents|], Obj([])).Err?
    ensures Rewind(parents, path, SetIn(current, path[|parents|..], value)) ==
      Err(WriteMember(current, path[|parents|], Obj([])).error)
  {
    var i := |parents|;
    assert path[i..][0] == path[i];
    RewindErr(parents, path, WriteMember(current, path[i], Obj([])).error);
  }

  /** At the last segment the walk is one write. */
  lemma SetWalkLast(current: Json, path: seq<string>, value: Json)
    requires path != []
    ensures SetIn(current, path[|path| - 1..], value) == WriteMember(current, path[|path| - 1], value)
  {
    assert path[|path| - 1..] == [path[|path| - 1]];
  }

  /** `setValueAtPath` as the source writes it: a cursor descends through a
      shallow copy of the root, putting `{}` in place of an `undefined` or
      `null` intermediate, and the last segment is assigned. The containers
      entered are kept so that each rewritten one is stored back into its
      parent, which is what the in-place writes amount to. */
  method SetValueAtPath(obj: Json, path: seq<string>, value: Json) returns (r: Result<Json>)
    ensures r == SetAt(obj, path, value)
  {
    if |path| == 0 {
      return Ok(value);
    }
    r := SetWalk(Spread(obj), path, value);
  }

  /** The walk itself, from the shallow copy `root`. */
  method SetWalk(root: Json, path: seq<string>, value: Json) returns (r: Result<Json>)
    requires path != []
    ensures r == SetIn(root, path, value)
  {
    var down := SetWalkDown(root, path, value);
    if down.Err? {
      return Err(down.error);
    }
    var parents, current := down.value.parents, down.value.current;
    SetWalkLast(current, path, value);
    var w := WriteMember(current, path[|path| - 1], value);
    if w.Err? {
      RewindErr(parents, path, w.error);
      return Err(w.error);
    }
    r := WriteBack(parents, path, w.value);
  }

  /** The descent: the containers entered before the last segment, or the
      error of putting `{}` where one is missing. */
  method SetWalkDown(root: Json, path: seq<string>, value: Json) returns (down: Result<Cursor>)
    requires path != []
    ensures down.Err? ==> SetIn(root, path, value) == Err(down.error)
    ensures down.Ok? ==> |down.value.parents| == |path| - 1
    ensures down.Ok? ==>
      Rewind(down.value.parents, path, SetIn(down.value.current, path[|path| - 1..], value)) ==
      SetIn(root, path, value)
  {
    var parents := [];
    var current := root;
    while |parents| < |path| - 1
      invariant |parents| <= |path| - 1
      invariant Rewind(parents, path, SetIn(current, path[|parents|..], value)) == SetIn(root, path, value)
      decreases |path| - |parents|
    {
      var next := Enter(parents, current, path, value);
      if next.Err? {
        return Err(next.error);
      }
      parents := parents + [current];
      current := next.value;
    }
    return Ok(Cursor(parents, current));
  }

  /** One step of the descent: the member at the next segment, with `{}` put
      in place of an `undefined` or `null` one, or the error of that write.
      Either way the outcome of the whole walk is kept. */
  method Enter(parents: seq<Json>, current: Json, path: seq<string>, value: Json) returns (next: Result<Json>)
    requires |parents| < |path| - 1
    ensures next.Ok? ==> next.value == Descend(current, path[|parents|])
    ensures next.Ok? ==>
      Rewind(parents + [current], path, SetIn(next.value, path[|parents| + 1..], value)) ==
      Rewind(parents, path, SetIn(current, path[|parents|..], value))
    ensures next.Err? ==> Rewind(parents, path, SetIn(current, path[|parents|..], value)) == Err(next.error)
  {
    var key := path[|parents|];
    var m := Member(current, key);
    if Nullish(m) {
      var w := WriteMember(current, key, Obj([]));
      if w.Err? {
        SetWalkBlocked(parents, current, path, value);
        return Err(w.error);
      }
      SetWalkStep(parents, current, path, value);
      return Ok(Obj([]));
    }
    SetWalkStep(parents, current, path, value);
    return Ok(m);
  }

  /** Storing a rewritten container back into its parents, innermost first. */
  method WriteBack(parents: seq<Json>, path: seq<string>, child: Json) returns (r: Result<Json>)
    requires |parents| <= |path|
    ensures r == Rewind(parents, path, Ok(child))
  {
    var res := child;
    var i := |parents|;
    assert parents[..i] == parents;
    while i > 0
      invariant 0 <= i <= |parents|
      invariant Rewind(parents[..i], path, Ok(res)) == Rewind(parents, path, Ok(child))
    {
      i := i - 1;
      RewindStep(parents, path, i, res);
      var up := WriteMember(parents[i], path[i], res);
      if up.Err? {
        RewindErr(parents[..i], path, up.error);
        return Err(up.error);
      }
      res := up.value;
    }
    return Ok(res);
  }

  /** The same write-back for the walk of a delete, where an unchanged container
      stays unchanged all the way up. */
  function RewindEdit(parents: seq<Json>, path: seq<string>, r: Result<Edit>): Result<Edit>
    requires |parents| <= |path|
    decreases |parents|
  {
    if parents == [] then r
    else
      match r
      case Err(e) => Err(e)
      case Ok(Same) => Ok(Same)
      case Ok(Changed(child)) =>
        var n := |parents| - 1;
        match WriteMember(parents[n], path[n], child)
        case Err(e) => Err(e)
        case Ok(c) => RewindEdit(parents[..n], path, Ok(Changed(c)))
  }

  lemma RewindEditStep(parents: seq<Json>, path: seq<string>, i: nat, child: Json)
    requires i < |parents| <= |path|
    ensures var w := WriteMember(parents[i], path[i], child);
      RewindEdit(parents[..i + 1], path, Ok(Changed(child))) ==
      if w.Err? then Err(w.error) else RewindEdit(parents[..i], path, Ok(Changed(w.value)))
  {
    assert parents[..i + 1][..i] == parents[..i];
  }

  lemma RewindEditStops(parents: seq<Json>, path: seq<string>, r: Result<Edit>)
    requires |parents| <= |path| && (r.Err? || r == Ok(Same))
    ensures RewindEdit(parents, path, r) == r
  {
  }

  /** Entering one more container keeps the outcome of the whole walk. */
  lemma DeleteWalkStep(parents: seq<Json>, current: Json, path: seq<string>)
    requires |parents| < |path| - 1
    requires !Nullish(Member(current, path[|parents|]))
    ensures var i := |parents|;
      var next := Member(current, path[i]);
      RewindEdit(parents + [current], path, DeleteIn(next, path[i + 1..])) ==
      RewindEdit(parents, path, DeleteIn(current, path[i..]))
  {
    var i := |parents|;
    var key := path[i];
    var next := Member(current, key);
    assert path[i..][0] == key && path[i..][1..] == path[i + 1..];
    var sub := DeleteIn(next, path[i + 1..]);
    assert (parents + [current])[..i] == parents;
    if sub.Ok? && sub.value.Changed? {
      var w := WriteMember(current, key, sub.value.v);
      if w.Ok? {
        assert DeleteIn(current, path[i..]) == Ok(Changed(w.value));
      } else {
        assert DeleteIn(current, path[i..]) == Err(w.error);
        RewindEditStops(parents, path, Err(w.error));
      }
    } else {
      assert DeleteIn(current, path[i..]) == sub;
      RewindEditStops(parents, path, sub);
    }
  }

  /** A missing intermediate ends the walk with nothing changed. */
  lemma DeleteWalkMissing(parents: seq<Json>, current: Json, path: seq<string>)
    requires |parents| < |path| - 1
    requires Nullish(Member(current, path[|parents|]))
    ensures RewindEdit(parents, path, DeleteIn(current, path[|parents|..])) == Ok(Same)
  {
    assert path[|parents|..][0] == path[|parents|];
    RewindEditStops(parents, path, Ok(Same));
  }

  /** At the last segment the walk deletes the key unless its value is `undefined`. */
  lemma DeleteWalkLast(current: Json, path: seq<string>)
    requires path != []
    ensures var k := path[|path| - 1];
      var d := RemoveMember(current, k);
      DeleteIn(current, path[|path| - 1..]) ==
      if Member(current, k).Undefined? then Ok(Same)
      else if d.Err? then Err(d.error) else Ok(Changed(d.value))
  {
    assert path[|path| - 1..] == [path[|path| - 1]];
  }

  /** `deleteValueAtPath` as the source writes it: `undefined` for the empty
      path, and otherwise the walk over a shallow copy of the root, which is
      returned as it is when there was nothing to delete. */
  method DeleteValueAtPath(obj: Json, path: seq<string>) returns (r: Result<Json>)
    ensures r == DeleteAt(obj, path)
  {
    if |path| == 0 {
      return Ok(Undefined);
    }
    var result := Spread(obj);
    var e := DeleteWalk(result, path);
    match e
    case Err(f) => r := Err(f);
    case Ok(Same) => r := Ok(result);
    case Ok(Changed(v)) => r := Ok(v);
  }

  /** The walk itself: a cursor descends from `root`, stops without change at an
      `undefined` or `null` intermediate, and deletes the last key only when
      its value is not `undefined`. */
  method DeleteWalk(root: Json, path: seq<string>) returns (r: Result<Edit>)
    requires path != []
    ensures r == DeleteIn(root, path)
  {
    var parents := [];
    var current := root;
    while |parents| < |path| - 1
      invariant |parents| <= |path| - 1
      invariant RewindEdit(parents, path, DeleteIn(current, path[|parents|..])) == DeleteIn(root, path)
      decreases |path| - |parents|
    {
      var next := Member(current, path[|parents|]);
      if Nullish(next) {
        DeleteWalkMissing(parents, current, path);
        return Ok(Same);
      }
      DeleteWalkStep(parents, current, path);
      parents := parents + [current];
      current := next;
    }
    r := DeleteLast(parents, current, path);
  }

  /** The last segment: nothing to do for an `undefined` value, otherwise the
      key is deleted and the changed container stored back. */
  method DeleteLast(parents: seq<Json>, current: Json, path: seq<string>) returns (r: Result<Edit>)
    requires |parents| == |path| - 1
    ensures r == RewindEdit(parents, path, DeleteIn(current, path[|parents|..]))
  {
    var k := path[|path| - 1];
    DeleteWalkLast(current, path);
    if Member(current, k).Undefined? {
      RewindEditStops(parents, path, Ok(Same));
      return Ok(Same);
    }
    var d := RemoveMember(current, k);
    if d.Err? {
      RewindEditStops(parents, path, Err(d.error));
      return Err(d.error);
    }
    r := WriteBackEdit(parents, path, d.value);
  }

  /** Storing a container the delete changed back into its parents, innermost first. */
  method WriteBackEdit(parents: seq<Json>, path: seq<string>, child: Json) returns (r: Result<Edit>)
    requires |parents| <= |path|
    ensures r == RewindEdit(parents, path, Ok(Changed(child)))
  {
    var res := child;
    var i := |parents|;
    assert parents[..i] == parents;
    while i > 0
      invariant 0 <= i <= |parents|
      invariant RewindEdit(parents[..i], path, Ok(Changed(res))) == RewindEdit(parents, path, Ok(Changed(child)))
    {
      i := i - 1;
      RewindEditStep(parents, path, i, res);
      var up := WriteMember(parents[i], path[i], res);
      if up.Err? {
        RewindEditStops(parents[..i], path, Err(up.error));
        return Err(up.error);
      }
      res := up.value;
    }
    return Ok(Changed(res));
  }
}
