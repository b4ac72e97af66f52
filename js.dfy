/**
 * JavaScript values as the patch resolver handles them: what `JSON.parse`
 * yields, plus `undefined`, with the three language operations the resolver
 * relies on — truthiness, object spread (`{...v}`) and the property read
 * `v[key]` — and the conversion of a path element to a property key.
 */
module Js {
  import opened Wrappers
  import opened Text

  /** Numbers are integers here; `undefined` is a value of its own. */
  datatype Value =
    | Undefined
    | Null
    | Bool(b: bool)
    | Num(n: int)
    | Str(s: string)
    | Arr(elems: seq<Value>)
    | Obj(fields: map<string, Value>)

  /** What a `throw` carries out of the core. */
  datatype Exception =
    | TypeError                      // a property read on null or undefined, or a path that is not iterable
    | InvalidPatchFormat(part: Value) // `new Error('invalid patch format ' + ...)` in the resolver

  /** JavaScript truthiness: `undefined`, `null`, `false`, `0` and `''` are falsy. */
  predicate Truthy(v: Value) {
    match v
    case Undefined => false
    case Null => false
    case Bool(b) => b
    case Num(n) => n != 0
    case Str(s) => s != ""
    case _ => true
  }

  /**
   * The property key a value stands for in `{[k]: ...}` and `v[k]`
   * (ToPropertyKey); an array is keyed by its `toString`, its elements
   * joined with commas and `null`/`undefined` elements printed as nothing.
   */
  function ToKey(v: Value): string
    decreases v
  {
    match v
    case Undefined => "undefined"
    case Null => "null"
    case Bool(b) => if b then "true" else "false"
    case Num(n) => IntToString(n)
    case Str(s) => s
    case Arr(a) =>
      Join(seq(|a|, i requires 0 <= i < |a| => if a[i].Undefined? || a[i].Null? then "" else ToKey(a[i])), ",")
    case Obj(_) => "[object Object]"
  }

  /** The index-keyed properties of an array-like sequence: "0", "1", ... */
  function IndexKeys(a: seq<Value>): (m: map<string, Value>)
    ensures forall i :: 0 <= i < |a| ==> NatToString(i) in m && m[NatToString(i)] == a[i]
    ensures forall k :: k in m ==> exists i :: 0 <= i < |a| && k == NatToString(i)
  {
    assert forall i, j :: 0 <= i < |a| && 0 <= j < |a| && NatToString(i) == NatToString(j) ==> i == j by {
      forall i, j | 0 <= i < |a| && 0 <= j < |a| && NatToString(i) == NatToString(j)
        ensures i == j
      {
        NatToStringInjective(i, j);
      }
    }
    map i | 0 <= i < |a| :: NatToString(i) := a[i]
  }

  /** The characters of a string as one-character strings, as iterating or spreading it yields them. */
  function Chars(s: string): (r: seq<Value>)
    ensures |r| == |s| && forall i :: 0 <= i < |s| ==> r[i] == Str([s[i]])
  {
    seq(|s|, i requires 0 <= i < |s| => Str([s[i]]))
  }

  /**
   * The own enumerable properties `{...v}` copies: an object's fields, the
   * indices of an array or a string, and nothing for the other values
   * (spreading `null` or `undefined` is not an error).
   */
  function Spread(v: Value): (m: map<string, Value>)
    ensures v.Obj? ==> m == v.fields
    ensures !(v.Obj? || v.Arr? || v.Str?) ==> m == map[]
  {
    match v
    case Obj(f) => f
    case Arr(a) => IndexKeys(a)
    case Str(s) => IndexKeys(Chars(s))
    case _ => map[]
  }

  function Lookup(m: map<string, Value>, key: string): Value {
    if key in m then m[key] else Undefined
  }

  /**
   * The property read `v[key]` over own properties: it throws on `null` and
   * `undefined`, gives `length` for arrays and strings, and `undefined` for a
   * missing property.
   */
  function Get(v: Value, key: string): (r: Result<Value, Exception>)
    ensures r.Err? <==> v.Null? || v.Undefined?
    ensures r.Err? ==> r.error == TypeError
    ensures v.Obj? ==> r == Ok(Lookup(v.fields, key))
  {
    match v
    case Undefined => Err(TypeError)
    case Null => Err(TypeError)
    case Arr(a) => Ok(if key == "length" then Num(|a|) else Lookup(Spread(v), key))
    case Str(s) => Ok(if key == "length" then Num(|s|) else Lookup(Spread(v), key))
    case _ => Ok(Lookup(Spread(v), key))
  }

  /** Reading an index of an array finds its element, as reading the same key of its spread copy does. */
  lemma GetIndex(a: seq<Value>, i: nat)
    requires i < |a|
    ensures Get(Arr(a), NatToString(i)) == Ok(a[i])
    ensures Get(Obj(Spread(Arr(a))), NatToString(i)) == Ok(a[i])
  {
    assert NatToString(i) != "length";
  }
}
