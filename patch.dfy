/**
 * The pure half of the patch resolver: `applyPatch`, the path-addressed
 * update built from object spreads, `mergeErrors`, and the fold of one
 * later part onto the previous response.
 */
module Patch {
  import opened Wrappers
  import opened Text
  import opened Js

  /**
   * The destructuring `[nextPath, ...rest] = path` iterates `path`: an array
   * by its elements, a string by its characters; any other value is not
   * iterable and throws.
   */
  function PathKeys(path: Value): (r: Result<seq<Value>, Exception>)
    ensures path.Arr? ==> r == Ok(path.elems)
    ensures path.Str? ==> r == Ok(Chars(path.s))
    ensures !(path.Arr? || path.Str?) ==> r == Err(TypeError)
  {
    match path
    case Arr(a) => Ok(a)
    case Str(s) => Ok(Chars(s))
    case _ => Err(TypeError)
  }

  /** `nextPath`: the first element, `undefined` for an empty path. */
  function Head(keys: seq<Value>): Value {
    if |keys| == 0 then Undefined else keys[0]
  }

  /** `rest`: everything after the first element. */
  function Tail(keys: seq<Value>): seq<Value> {
    if |keys| == 0 then [] else keys[1..]
  }

  /**
   * `applyPatch(previous, keys, data)` once the path is destructured. The
   * result is always a fresh object that keeps every property `previous`
   * spreads into it except the addressed key, which it adds or replaces;
   * with a single key left, that key holds `data`. The only failure is the
   * TypeError of reading a property of `null` or `undefined` on the way down.
   */
  function ApplyAt(previous: Value, keys: seq<Value>, data: Value): (r: Result<Value, Exception>)
    ensures r.Err? ==> r.error == TypeError
    ensures r.Ok? ==> r.value.Obj? && r.value.fields.Keys == Spread(previous).Keys + {ToKey(Head(keys))}
    ensures r.Ok? ==> forall j :: j in Spread(previous) && j != ToKey(Head(keys)) ==> r.value.fields[j] == Spread(previous)[j]
    ensures |keys| <= 1 ==> r.Ok? && r.value.fields[ToKey(Head(keys))] == data
    decreases |keys|
  {
    var key := ToKey(Head(keys));
    var rest := Tail(keys);
    if |rest| == 0 then
      Ok(Obj(Spread(previous)[key := data]))
    else
      var child :- Get(previous, key);
      var patched :- ApplyAt(child, rest, data);
      Ok(Obj(Spread(previous)[key := patched]))
  }

  /** `applyPatch(previousResponse, patchPath, patchData)`. */
  function ApplyPatch(previous: Value, path: Value, data: Value): (r: Result<Value, Exception>)
    ensures r.Err? ==> r.error == TypeError
    ensures !(path.Arr? || path.Str?) ==> r == Err(TypeError)
    ensures r.Ok? ==> r.value.Obj? && Spread(previous).Keys <= r.value.fields.Keys
  {
    var keys :- PathKeys(path);
    ApplyAt(previous, keys, data)
  }

  /** Following a path of property reads, `v[k0][k1]...`. */
  function ReadPath(v: Value, keys: seq<Value>): Result<Value, Exception>
    decreases |keys|
  {
    if |keys| == 0 then Ok(v)
    else
      var child :- Get(v, ToKey(keys[0]));
      ReadPath(child, keys[1..])
  }

  /** After a successful patch, reading the patched path yields the patch data. */
  lemma {:induction false} ApplyAtReadBack(previous: Value, keys: seq<Value>, data: Value)
    requires |keys| >= 1 && ApplyAt(previous, keys, data).Ok?
    ensures ReadPath(ApplyAt(previous, keys, data).value, keys) == Ok(data)
    decreases |keys|
  {
    var key := ToKey(keys[0]);
    var rest := keys[1..];
    var r := ApplyAt(previous, keys, data).value;
    if |rest| > 0 {
      var child := Get(previous, key).value;
      ApplyAtReadBack(child, rest, data);
      assert Get(r, key) == Ok(ApplyAt(child, rest, data).value);
    } else {
      assert Get(r, key) == Ok(data);
    }
  }

  /** `after` is an object holding every property `before` spreads into it, except `key`, with the same value. */
  ghost predicate KeepsSiblings(before: Value, after: Value, key: string) {
    && after.Obj?
    && forall j :: j in Spread(before) && j != key ==> j in after.fields && after.fields[j] == Spread(before)[j]
  }

  /** Reading a path of `m` keys is reading the first key, then the next `m - 1`. */
  lemma ReadPathCons(v: Value, keys: seq<Value>, m: nat)
    requires 0 < m <= |keys| && Get(v, ToKey(keys[0])).Ok?
    ensures ReadPath(v, keys[..m]) == ReadPath(Get(v, ToKey(keys[0])).value, keys[1..][..m - 1])
  {
    assert keys[..m][0] == keys[0];
    assert keys[..m][1..] == keys[1..][..m - 1];
  }

  /** A successful patch along two keys or more reads the child and puts the patched child under the first key. */
  lemma ApplyAtDescends(previous: Value, keys: seq<Value>, data: Value)
    requires |keys| >= 2 && ApplyAt(previous, keys, data).Ok?
    ensures Get(previous, ToKey(keys[0])).Ok?
    ensures ApplyAt(Get(previous, ToKey(keys[0])).value, keys[1..], data).Ok?
    ensures Get(ApplyAt(previous, keys, data).value, ToKey(keys[0]))
      == Ok(ApplyAt(Get(previous, ToKey(keys[0])).value, keys[1..], data).value)
  {
    assert Tail(keys) == keys[1..];
  }

  /**
   * Siblings are kept at every level: at each depth `m` along the path, the
   * patched value is an object holding every property the value there
   * spread into it except the next key, with the same value.
   */
  lemma {:induction false} KeepsSiblingsAt(previous: Value, keys: seq<Value>, data: Value, m: nat)
    requires m < |keys| && ApplyAt(previous, keys, data).Ok?
    ensures ReadPath(previous, keys[..m]).Ok?
    ensures ReadPath(ApplyAt(previous, keys, data).value, keys[..m]).Ok?
    ensures KeepsSiblings(ReadPath(previous, keys[..m]).value, ReadPath(ApplyAt(previous, keys, data).value, keys[..m]).value, ToKey(keys[m]))
    decreases m
  {
    var result := ApplyAt(previous, keys, data).value;
    if m == 0 {
      assert keys[..0] == [];
    } else {
      ApplyAtDescends(previous, keys, data);
      var child := Get(previous, ToKey(keys[0])).value;
      KeepsSiblingsAt(child, keys[1..], data, m - 1);
      ReadPathCons(previous, keys, m);
      ReadPathCons(result, keys, m);
      assert keys[m] == keys[1..][m - 1];
    }
  }

  /**
   * A patch succeeds exactly when the parent of the addressed leaf can be
   * read: a missing value one level above the leaf is spread as `{}`, but a
   * `null` or `undefined` any higher makes the property read throw.
   */
  lemma {:induction false} ApplyAtOkIff(previous: Value, keys: seq<Value>, data: Value)
    ensures ApplyAt(previous, keys, data).Ok? <==> (|keys| <= 1 || ReadPath(previous, keys[..|keys| - 1]).Ok?)
    decreases |keys|
  {
    if |keys| >= 2 {
      var key := ToKey(keys[0]);
      var rest := keys[1..];
      var parent := keys[..|keys| - 1];
      assert parent[0] == keys[0];
      assert parent[1..] == rest[..|rest| - 1];
      if Get(previous, key).Ok? {
        ApplyAtOkIff(Get(previous, key).value, rest, data);
      }
    }
  }

  /** A path whose first key is missing from an object creates that key, holding an object with the second key. */
  lemma MissingParentCreated(previous: map<string, Value>, k0: Value, k1: Value, data: Value)
    requires ToKey(k0) !in previous
    ensures ApplyAt(Obj(previous), [k0, k1], data) == Ok(Obj(previous[ToKey(k0) := Obj(map[ToKey(k1) := data])]))
  {
    assert Tail([k0, k1]) == [k1];
    assert Get(Obj(previous), ToKey(k0)) == Ok(Undefined);
    assert Tail([k1]) == [];
    assert ApplyAt(Undefined, [k1], data) == Ok(Obj(map[ToKey(k1) := data]));
  }

  /** Two missing levels above the leaf throw. */
  lemma MissingGrandparentThrows(previous: map<string, Value>, keys: seq<Value>, data: Value)
    requires |keys| >= 3 && ToKey(keys[0]) !in previous
    ensures ApplyAt(Obj(previous), keys, data) == Err(TypeError)
  {
    var rest := keys[1..];
    assert Tail(keys) == rest && |Tail(rest)| > 0;
    assert Get(Obj(previous), ToKey(keys[0])) == Ok(Undefined);
    assert ApplyAt(Undefined, rest, data) == Err(TypeError);
  }

  /** The errors a value stands for: none when it is falsy, an array's elements, or the value itself. */
  function ErrorList(v: Value): seq<Value> {
    if !Truthy(v) then [] else if v.Arr? then v.elems else [v]
  }

  /** What `[].concat(v)` contributes: an array's elements, or the value itself. */
  function Items(v: Value): seq<Value> {
    if v.Arr? then v.elems else [v]
  }

  /**
   * `mergeErrors(previousErrors, patchErrors)`: the errors of the result are
   * the previous ones followed by the patch's, in one array when both are
   * present; a side that is absent leaves
   * the other one as it is, and with neither the result is `undefined`.
   */
  function MergeErrors(previousErrors: Value, patchErrors: Value): (r: Value)
    ensures ErrorList(r) == ErrorList(previousErrors) + ErrorList(patchErrors)
    ensures r == Undefined <==> !Truthy(previousErrors) && !Truthy(patchErrors)
    ensures Truthy(previousErrors) && !Truthy(patchErrors) ==> r == previousErrors
    ensures !Truthy(previousErrors) && Truthy(patchErrors) ==> r == patchErrors
    ensures Truthy(previousErrors) && Truthy(patchErrors) ==> r == Arr(ErrorList(previousErrors) + ErrorList(patchErrors))
  {
    if Truthy(previousErrors) && Truthy(patchErrors) then Arr(Items(previousErrors) + Items(patchErrors))
    else if Truthy(previousErrors) then previousErrors
    else if Truthy(patchErrors) then patchErrors
    else Undefined
  }

  /** Merging is associative, so errors accumulate the same however the parts are grouped. */
  lemma MergeErrorsAssociative(a: Value, b: Value, c: Value)
    ensures MergeErrors(MergeErrors(a, b), c) == MergeErrors(a, MergeErrors(b, c))
  {
    var ab := MergeErrors(a, b);
    var bc := MergeErrors(b, c);
    if Truthy(a) && Truthy(b) && Truthy(c) {
      assert Items(ab) + Items(c) == Items(a) + Items(bc);
    }
  }

  /**
   * The fold of a later part: the part must carry a truthy `path` and a
   * truthy `data`; the result spreads the previous response, patches its
   * `data` at the path and merges its `errors` with the part's.
   */
  function Patched(previous: Value, part: Value): (r: Result<Value, Exception>)
    ensures r.Err? ==> r.error == TypeError || r.error == InvalidPatchFormat(part)
    ensures r.Ok? ==> Get(part, "path").Ok? && Truthy(Get(part, "path").value) && Truthy(Get(part, "data").value)
    ensures r.Ok? ==> r.value.Obj? && Spread(previous).Keys + {"data", "errors"} == r.value.fields.Keys
  {
    var path :- Get(part, "path");
    // `part` is neither null nor undefined from here on, so its reads succeed
    var data := Get(part, "data").value;
    if !(Truthy(path) && Truthy(data)) then Err(InvalidPatchFormat(part))
    else
      var previousData :- Get(previous, "data");
      var newData :- ApplyPatch(previousData, path, data);
      var previousErrors := Get(previous, "errors").value;
      var patchErrors := Get(part, "errors").value;
      Ok(Obj(Spread(previous)["data" := newData]["errors" := MergeErrors(previousErrors, patchErrors)]))
  }

  /** A part without a truthy `path` and a truthy `data` is rejected; `null`, `false`, `0` and `''` do not count as data. */
  lemma PatchedRejects(previous: Value, part: map<string, Value>)
    requires !(Truthy(Lookup(part, "path")) && Truthy(Lookup(part, "data")))
    ensures Patched(previous, Obj(part)) == Err(InvalidPatchFormat(Obj(part)))
  {
  }

  /**
   * A well-shaped part folded onto an object response: every other field of
   * the response stays, `data` is the patched data and `errors` the merged
   * list, so earlier errors survive a part that has none.
   */
  lemma PatchedFields(previous: map<string, Value>, part: map<string, Value>)
    requires Truthy(Lookup(part, "path")) && Truthy(Lookup(part, "data"))
    requires ApplyPatch(Lookup(previous, "data"), Lookup(part, "path"), Lookup(part, "data")).Ok?
    ensures var r := Patched(Obj(previous), Obj(part));
      && r.Ok? && r.value.Obj?
      && r.value.fields.Keys == previous.Keys + {"data", "errors"}
      && (forall k :: k in previous && k != "data" && k != "errors" ==> r.value.fields[k] == previous[k])
      && r.value.fields["data"] == ApplyPatch(Lookup(previous, "data"), Lookup(part, "path"), Lookup(part, "data")).value
      && r.value.fields["errors"] == MergeErrors(Lookup(previous, "errors"), Lookup(part, "errors"))
      && ErrorList(r.value.fields["errors"]) == ErrorList(Lookup(previous, "errors")) + ErrorList(Lookup(part, "errors"))
      && (!Truthy(Lookup(part, "errors")) ==> r.value.fields["errors"] == MergeErrors(Lookup(previous, "errors"), Undefined))
  {
  }

  /** A patch whose path is not an array or a string throws a TypeError. */
  lemma PatchedNonIterablePath(previous: map<string, Value>, part: map<string, Value>)
    requires Truthy(Lookup(part, "path")) && Truthy(Lookup(part, "data"))
    requires !(Lookup(part, "path").Arr? || Lookup(part, "path").Str?)
    ensures Patched(Obj(previous), Obj(part)) == Err(TypeError)
  {
  }
}
