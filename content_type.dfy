/**
 * `getBoundary`: the `boundary` parameter of a Content-Type value, in the
 * media-type parameter syntax of section 5.1 of RFC 2045 and section 5.1 of
 * RFC 2046 as far as the code reads it: parameters are separated by `;`, a
 * parameter is `key=value`, and a value may be enclosed in double quotes.
 */
module ContentType {
  import opened Wrappers
  import opened Text

  /** What `getBoundary` returns when no parameter names a boundary. */
  const Fallback: string := "-"

  /** The string before the first `c` holds no `c`, and `c` ends it. */
  lemma BeforeFirst(s: string, c: char)
    ensures var i := IndexOf(s, [c]);
      if i < 0 then c !in s else i < |s| && s[i] == c && c !in s[..i]
  {
    var i := IndexOf(s, [c]);
    OccursChar(s, c);
    if i >= 0 {
      assert s[i] == s[i..i + 1][0];
      forall j: nat | j < i
        ensures !OccursAt(s[..i], [c], j)
      {
        assert !OccursAt(s, [c], j);
        assert s[..i][j..j + 1][0] == s[j] == s[j..j + 1][0];
      }
      OccursChar(s[..i], c);
    }
  }

  /** A string without `c`, followed by `c`, has its first `c` at its end. */
  lemma FirstAtEnd(p: string, c: char)
    requires c !in p
    ensures IndexOf(p + [c], [c]) == |p|
  {
    forall j: nat | j < |p|
      ensures !OccursAt(p + [c], [c], j)
    {
      assert (p + [c])[j..j + 1][0] == p[j];
    }
    assert (p + [c])[|p|..|p| + 1] == [c];
    IndexOfIs(p + [c], [c], |p|);
  }

  /**
   * The first piece of a split on one character holds no such character; it
   * is the whole string when it is the only piece, and otherwise the
   * character follows it and the rest splits into the other pieces.
   */
  lemma SplitHead(t: string, c: char)
    ensures var kv := Split(t, [c]);
      && c !in kv[0]
      && (|kv| == 1 ==> kv[0] == t)
      && (|kv| >= 2 ==> |kv[0]| < |t| && t[..|kv[0]|] == kv[0] && t[|kv[0]|] == c && Split(t[|kv[0]| + 1..], [c]) == kv[1..])
  {
    BeforeFirst(t, c);
  }

  /** Every piece of a split on one character is free of that character. */
  lemma {:induction false} SplitPieceFree(s: string, c: char, k: nat)
    requires k < |Split(s, [c])|
    ensures c !in Split(s, [c])[k]
    decreases |s|
  {
    SplitHead(s, c);
    if k > 0 {
      var kv := Split(s, [c]);
      var rest := s[|kv[0]| + 1..];
      SplitPieceFree(rest, c, k - 1);
    }
  }

  /**
   * The first two pieces of a split on one character: the string starts with
   * the first piece, the character and the second piece, and is either at
   * its end there or goes on with the character.
   */
  lemma SplitFirstTwo(t: string, c: char)
    requires |Split(t, [c])| >= 2
    ensures var kv := Split(t, [c]);
      && c !in kv[0] && c !in kv[1]
      && |kv[0]| + 1 + |kv[1]| <= |t|
      && t[..|kv[0]| + 1 + |kv[1]|] == kv[0] + [c] + kv[1]
      && (|t| == |kv[0]| + 1 + |kv[1]| || t[|kv[0]| + 1 + |kv[1]|] == c)
  {
    var kv := Split(t, [c]);
    var m := |kv[0]|;
    SplitHead(t, c);
    var rest := t[m + 1..];
    var qs := Split(rest, [c]);
    assert qs == kv[1..];
    assert qs[0] == kv[1];
    SplitHead(rest, c);
    var l := |kv[1]|;
    if |qs| == 1 {
      assert rest[..l] == kv[1];
    } else {
      assert rest[..l] == kv[1];
      assert t[m + 1 + l] == rest[l];
    }
    SliceAround(t, m, l);
  }

  /** Cutting a string around one position. */
  lemma SliceAround(t: string, m: nat, l: nat)
    requires m + 1 + l <= |t|
    ensures t[..m + 1 + l] == t[..m] + [t[m]] + t[m + 1..][..l]
  {
  }

  /**
   * `[key, value] = part.trim().split(sep)` tested by `key === name &&
   * !!value`: the value of a parameter called `name` when it has a non-empty
   * one. The trimmed parameter starts with `name`, the separator and the
   * value, which holds no separator and is followed by the end of the
   * parameter or by the separator again.
   */
  function ParamValue(param: string, name: string, sep: char): Option<string> {
    var t := Trim(param);
    var kv := Split(t, [sep]);
    if kv[0] == name && |kv| >= 2 && kv[1] != "" then Some(kv[1]) else None
  }

  /**
   * The trimmed parameter starts with the name, the separator and the value,
   * which is not empty and holds no separator, and is followed by the end of
   * the parameter or by the separator again.
   */
  lemma ParamValueShape(param: string, name: string, sep: char)
    ensures var r := ParamValue(param, name, sep);
      r.Some? ==> r.value != "" && sep !in r.value
    ensures var r := ParamValue(param, name, sep);
      r.Some? ==>
        var t := Trim(param);
        var n := |name| + 1 + |r.value|;
        && n <= |t|
        && t[..n] == name + [sep] + r.value
        && (|t| == n || t[n] == sep)
  {
    var t := Trim(param);
    if |Split(t, [sep])| >= 2 {
      SplitFirstTwo(t, sep);
    }
  }

  /** A character the parameter does not hold is not in its value either. */
  lemma ParamValueWithout(param: string, name: string, sep: char, c: char)
    requires c !in param
    ensures ParamValue(param, name, sep).Some? ==> c !in ParamValue(param, name, sep).value
  {
    var r := ParamValue(param, name, sep);
    if r.Some? {
      ParamValueShape(param, name, sep);
      var t := Trim(param);
      var n := |name| + 1 + |r.value|;
      forall k | 0 <= k < |r.value|
        ensures r.value[k] != c
      {
        assert t[..n][|name| + 1 + k] == r.value[k];
        TrimIn(param, |name| + 1 + k);
      }
    }
  }

  /** A parameter written as its name, the separator and a value is read back with that value. */
  lemma ParamValueOf(param: string, name: string, sep: char, v: string, rest: string)
    requires param == name + [sep] + v + rest
    requires sep !in name && v != "" && sep !in v && (rest == "" || rest[0] == sep)
    requires !IsSpace(param[0]) && !IsSpace(param[|param| - 1])
    ensures ParamValue(param, name, sep) == Some(v)
  {
    TrimmedAlready(param);
    SplitNameValue(name, sep, v, rest);
  }

  /** The first two pieces of a split of a name, the separator, a value and the rest. */
  lemma SplitNameValue(name: string, sep: char, v: string, rest: string)
    requires sep !in name && sep !in v && (rest == "" || rest[0] == sep)
    ensures var kv := Split(name + [sep] + v + rest, [sep]);
      |kv| >= 2 && kv[0] == name && kv[1] == v
  {
    assert name + [sep] + (v + rest) == name + [sep] + v + rest;
    FirstAtEnd(name, sep);
    SplitCons(name, [sep], v + rest);
    if rest == "" {
      assert v + rest == v;
      OccursChar(v, sep);
      SplitAbsent(v, [sep]);
    } else {
      FirstAtEnd(v, sep);
      assert v + rest == v + [sep] + rest[1..];
      SplitCons(v, [sep], rest[1..]);
    }
  }

  /** A string that neither starts nor ends with white space is its own trim. */
  lemma TrimmedAlready(s: string)
    requires s != "" && !IsSpace(s[0]) && !IsSpace(s[|s| - 1])
    ensures Trim(s) == s
  {
    assert TrimStart(s) == s;
    assert TrimEnd(s) == s;
  }

  /** `[key, value]` with `key === 'boundary' && !!value`: the value of a `boundary` parameter, `key` and value being separated by `=`. */
  function BoundaryValue(param: string): Option<string> {
    ParamValue(param, "boundary", '=')
  }

  /**
   * The value with one pair of enclosing double quotes removed, as the `substr` branch does;
   * `substr(1, -1)` of the lone `"` is the empty string.
   */
  function Unquote(v: string): (r: string)
    ensures forall c :: c in r ==> c in v
    ensures |v| >= 2 && v[0] == '"' && v[|v| - 1] == '"' ==> r == v[1..|v| - 1]
    ensures v == "\"" ==> r == ""
    ensures !(|v| >= 1 && v[0] == '"' && v[|v| - 1] == '"') ==> r == v
  {
    if |v| >= 1 && v[0] == '"' && v[|v| - 1] == '"' then
      if |v| >= 2 then v[1..|v| - 1] else ""
    else v
  }

  /** Quoting a value and unquoting it gives the value back. */
  lemma UnquoteQuoted(v: string)
    ensures Unquote("\"" + v + "\"") == v
  {
    var q := "\"" + v + "\"";
    assert q[1..|q| - 1] == v;
  }

  /** The position of the first parameter `value` accepts, or the number of parameters when it accepts none. */
  function FirstMatch(params: seq<string>, value: string -> Option<string>): (i: nat)
    ensures i <= |params|
    ensures i < |params| ==> value(params[i]).Some?
    ensures forall j :: 0 <= j < i ==> value(params[j]).None?
    decreases |params|
  {
    if |params| == 0 then 0
    else if value(params[0]).Some? then 0
    else 1 + FirstMatch(params[1..], value)
  }

  /** The first parameter found to be accepted is the one the search stops at. */
  lemma FirstMatchIs(params: seq<string>, value: string -> Option<string>, i: nat)
    requires i < |params| && value(params[i]).Some?
    requires forall j :: 0 <= j < i ==> value(params[j]).None?
    ensures FirstMatch(params, value) == i
  {
    var f := FirstMatch(params, value);
    assert !(f < i) && !(i < f);
  }

  /** When no parameter is accepted, the search runs off the end. */
  lemma FirstMatchNone(params: seq<string>, value: string -> Option<string>)
    requires forall j :: 0 <= j < |params| ==> value(params[j]).None?
    ensures FirstMatch(params, value) == |params|
  {
  }

  /**
   * The boundary a Content-Type value names: the unquoted value of its
   * first `;`-separated `boundary` parameter, or `-` when it has none.
   */
  function BoundaryOf(contentType: string): string {
    var params := Split(contentType, ";");
    var i := FirstMatch(params, BoundaryValue);
    if i < |params| then Unquote(BoundaryValue(params[i]).value) else Fallback
  }

  /**
   * `getBoundary(contentType)`: a search over the parameters
   * that stops at the first `boundary` parameter with a value.
   */
  method GetBoundary(contentType: string) returns (boundary: string)
    ensures boundary == BoundaryOf(contentType)
  {
    var contentTypeParts := Split(contentType, ";");
    for i := 0 to |contentTypeParts|
      invariant forall j :: 0 <= j < i ==> BoundaryValue(contentTypeParts[j]).None?
    {
      var value := BoundaryValue(contentTypeParts[i]);
      if value.Some? {
        FirstMatchIs(contentTypeParts, BoundaryValue, i);
        return Unquote(value.value);
      }
    }
    FirstMatchNone(contentTypeParts, BoundaryValue);
    return Fallback;
  }

  /** A value without parameters, such as the default empty string, names no boundary. */
  lemma NoParameters(contentType: string)
    requires ';' !in contentType && '=' !in contentType
    ensures BoundaryOf(contentType) == Fallback
  {
    OccursChar(contentType, ';');
    SplitAbsent(contentType, ";");
    var t := Trim(contentType);
    OccursChar(t, '=');
    SplitAbsent(t, "=");
  }

  /** The boundary never holds `;` or `=`: it is cut out of the value by both splits. */
  lemma BoundaryOfFree(contentType: string)
    ensures ';' !in BoundaryOf(contentType) && '=' !in BoundaryOf(contentType)
  {
    var params := Split(contentType, ";");
    var i := FirstMatch(params, BoundaryValue);
    if i < |params| {
      SplitPieceFree(contentType, ';', i);
      ParamValueWithout(params[i], "boundary", '=', ';');
      ParamValueShape(params[i], "boundary", '=');
    }
  }

  /** Two strings without `c`, joined by `c`, split back into the two. */
  lemma SplitTwo(a: string, b: string, c: char)
    requires c !in a && c !in b
    ensures Split(a + [c] + b, [c]) == [a, b]
  {
    FirstAtEnd(a, c);
    SplitCons(a, [c], b);
    OccursChar(b, c);
    SplitAbsent(b, [c]);
  }

  /** The characters of a value and of the value in quotes. */
  lemma QuotedValue(v: string, quoted: bool)
    requires v != "" && ';' !in v && '=' !in v && !IsSpace(v[|v| - 1])
    ensures var value := if quoted then "\"" + v + "\"" else v;
      value != "" && ';' !in value && '=' !in value && !IsSpace(value[|value| - 1])
  {
    var value := if quoted then "\"" + v + "\"" else v;
    assert forall c :: c in value ==> c == '"' || c in v;
  }

  /** One leading space makes no difference to the trim. */
  lemma TrimLeadingSpace(p: string)
    requires p != "" && !IsSpace(p[0])
    ensures Trim(" " + p) == Trim(p)
  {
    assert (" " + p)[1..] == p;
  }

  /** A parameter's value depends only on the trimmed parameter. */
  lemma ParamValueTrim(a: string, b: string, name: string, sep: char)
    requires Trim(a) == Trim(b)
    ensures ParamValue(a, name, sep) == ParamValue(b, name, sep)
  {
  }

  /** `boundary=` and a value is read back with that value. */
  lemma BoundaryParamOf(name: string, value: string)
    requires name == "boundary"
    requires value != "" && '=' !in value && !IsSpace(value[|value| - 1])
    ensures BoundaryValue(name + "=" + value) == Some(value)
  {
    var param := name + "=" + value;
    assert param + "" == param;
    ParamValueOf(param, name, '=', value, "");
  }

  /** Written with a space after its `;`, the parameter holds no `;` of its own. */
  lemma SpacedParamFree(value: string)
    requires ';' !in value
    ensures ';' !in " boundary=" + value
  {
    assert forall c :: c in " boundary=" + value ==> c in " boundary=" || c in value;
  }

  /** A `boundary` parameter after the space that follows its `;` is read back with its value. */
  lemma SpacedParam(value: string)
    requires value != "" && ';' !in value && '=' !in value && !IsSpace(value[|value| - 1])
    ensures BoundaryValue(" boundary=" + value) == Some(value)
    ensures ';' !in " boundary=" + value
  {
    var name := "boundary";
    var param := name + "=" + value;
    assert " boundary=" + value == " " + param;
    BoundaryParamOf(name, value);
    TrimLeadingSpace(param);
    ParamValueTrim(" " + param, param, name, '=');
    SpacedParamFree(value);
  }

  /** Where the search stops and what it finds there decide the boundary. */
  lemma BoundaryOfIs(contentType: string, params: seq<string>, i: nat, w: string)
    requires params == Split(contentType, ";")
    requires i < |params| && FirstMatch(params, BoundaryValue) == i && BoundaryValue(params[i]) == Some(w)
    ensures BoundaryOf(contentType) == Unquote(w)
  {
  }

  /** Of two parameters, only the second naming a boundary, the search stops at the second. */
  lemma FirstMatchSecond(mediaType: string, param: string, value: string)
    requires BoundaryValue(mediaType).None? && BoundaryValue(param) == Some(value)
    ensures FirstMatch([mediaType, param], BoundaryValue) == 1
  {
    FirstMatchIs([mediaType, param], BoundaryValue, 1);
  }

  /** A content type split into two parameters, where the search stops at the second, names the second one's boundary. */
  lemma BoundaryOfPair(contentType: string, mediaType: string, param: string, value: string)
    requires Split(contentType, ";") == [mediaType, param]
    requires FirstMatch([mediaType, param], BoundaryValue) == 1
    requires BoundaryValue(param) == Some(value)
    ensures BoundaryOf(contentType) == Unquote(value)
  {
    BoundaryOfIs(contentType, [mediaType, param], 1, value);
  }

  /** A media type that is not a boundary parameter, then `;` and one that is: the boundary is the second one's. */
  lemma BoundaryOfSecond(mediaType: string, param: string, value: string)
    requires ';' !in mediaType && BoundaryValue(mediaType).None?
    requires ';' !in param && BoundaryValue(param) == Some(value)
    ensures BoundaryOf(mediaType + ";" + param) == Unquote(value)
  {
    SplitTwo(mediaType, param, ';');
    FirstMatchSecond(mediaType, param, value);
    BoundaryOfPair(mediaType + ";" + param, mediaType, param, value);
  }

  /**
   * A media type followed by a `boundary` parameter, quoted or not, names
   * the boundary it was written with.
   */
  lemma BoundaryRoundTrip(mediaType: string, v: string, quoted: bool)
    requires ';' !in mediaType && BoundaryValue(mediaType).None?
    requires v != "" && ';' !in v && '=' !in v && '"' !in v && !IsSpace(v[|v| - 1])
    ensures BoundaryOf(mediaType + ";" + (" boundary=" + (if quoted then "\"" + v + "\"" else v))) == v
  {
    var value := if quoted then "\"" + v + "\"" else v;
    QuotedValue(v, quoted);
    SpacedParam(value);
    BoundaryOfSecond(mediaType, " boundary=" + value, value);
    if quoted {
      UnquoteQuoted(v);
    } else {
      assert v[0] != '"';
    }
  }
}
