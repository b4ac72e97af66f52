/**
 * The JavaScript string built-ins the core relies on, over strings as
 * sequences of characters: `indexOf`, `split` and `replace` with a string
 * argument, `trim`, `toLowerCase`, the global `parseInt`, and the decimal
 * rendering of integers used when a number becomes a property key.
 */
module Text {
  import opened Wrappers

  /** `d` occurs in `s` starting at index `i`. */
  ghost predicate OccursAt(s: string, d: string, i: nat) {
    i + |d| <= |s| && s[i..i + |d|] == d
  }

  ghost predicate Occurs(s: string, d: string) {
    exists i: nat :: OccursAt(s, d, i)
  }

  /** `s.indexOf(d, k)`: the first index at or after `k` where `d` occurs, or -1. */
  function IndexFrom(s: string, d: string, k: nat): (r: int)
    ensures r == -1 || (k <= r && OccursAt(s, d, r))
    ensures r == -1 ==> forall j: nat :: k <= j ==> !OccursAt(s, d, j)
    ensures r >= 0 ==> forall j: nat :: k <= j < r ==> !OccursAt(s, d, j)
    decreases |s| - k
  {
    if k + |d| > |s| then -1
    else if s[k..k + |d|] == d then k
    else IndexFrom(s, d, k + 1)
  }

  /** `s.indexOf(d)`: the index of the first occurrence of `d`, or -1 when there is none. */
  function IndexOf(s: string, d: string): (r: int)
    ensures r >= 0 ==> OccursAt(s, d, r) && forall j: nat :: j < r ==> !OccursAt(s, d, j)
    ensures r < 0 <==> !Occurs(s, d)
  {
    IndexFrom(s, d, 0)
  }

  /** An occurrence with none before it is the one `indexOf` finds. */
  lemma IndexOfIs(s: string, d: string, i: nat)
    requires OccursAt(s, d, i)
    requires forall j: nat :: j < i ==> !OccursAt(s, d, j)
    ensures IndexOf(s, d) == i
  {
  }

  lemma OccursAtAppend(p: string, q: string, d: string, j: nat)
    requires j + |d| <= |p|
    ensures OccursAt(p + q, d, j) <==> OccursAt(p, d, j)
  {
    assert (p + q)[j..j + |d|] == p[j..j + |d|];
  }

  lemma OccursAtShift(p: string, q: string, d: string, j: nat)
    ensures OccursAt(p + q, d, |p| + j) <==> OccursAt(q, d, j)
  {
    if j + |d| <= |q| {
      assert (p + q)[|p| + j..|p| + j + |d|] == q[j..j + |d|];
    }
  }

  /** Text appended after an occurrence does not move the first occurrence. */
  lemma IndexOfAppend(p: string, q: string, d: string)
    requires IndexOf(p, d) >= 0
    ensures IndexOf(p + q, d) == IndexOf(p, d)
  {
    var i := IndexOf(p, d);
    OccursAtAppend(p, q, d, i);
    forall j: nat | j < i
      ensures !OccursAt(p + q, d, j)
    {
      OccursAtAppend(p, q, d, j);
    }
    IndexOfIs(p + q, d, i);
  }

  /** When `d` occurs first at the end of `p`, it does not occur inside `p`. */
  lemma FirstAtEndNotInside(p: string, d: string)
    requires |d| > 0 && IndexOf(p + d, d) == |p|
    ensures !Occurs(p, d)
  {
    forall j: nat
      ensures !OccursAt(p, d, j)
    {
      if j + |d| <= |p| {
        OccursAtAppend(p, d, d, j);
      }
    }
  }

  /** A string without the character `c` has no occurrence of `d` whose first character is `c`. */
  lemma NoOccurWithoutFirstChar(s: string, d: string)
    requires |d| > 0 && d[0] !in s
    ensures !Occurs(s, d)
  {
    forall j: nat
      ensures !OccursAt(s, d, j)
    {
      if j + |d| <= |s| {
        assert s[j..j + |d|][0] == s[j];
      }
    }
  }

  /** A one-character string occurs exactly where the character is. */
  lemma OccursChar(s: string, c: char)
    ensures Occurs(s, [c]) <==> c in s
  {
    if c in s {
      var j :| 0 <= j < |s| && s[j] == c;
      assert s[j..j + 1] == [c];
      assert OccursAt(s, [c], j);
    }
    if Occurs(s, [c]) {
      var j: nat :| OccursAt(s, [c], j);
      assert s[j] == s[j..j + 1][0];
    }
  }

  /** The inverse of `Split`: the pieces glued back together with `d`. */
  function Join(ps: seq<string>, d: string): string
  {
    if |ps| == 0 then "" else if |ps| == 1 then ps[0] else ps[0] + d + Join(ps[1..], d)
  }

  /**
   * The shape of every result of `Split`: at least one piece, each piece but
   * the last is ended by the first occurrence of `d` after it, and the last
   * piece holds no occurrence.
   */
  ghost predicate Separated(ps: seq<string>, d: string) {
    && |ps| >= 1
    && (forall k :: 0 <= k < |ps| - 1 ==> IndexOf(ps[k] + d, d) == |ps[k]|)
    && !Occurs(ps[|ps| - 1], d)
  }

  lemma FirstOccurrenceEndsPiece(s: string, d: string, i: nat)
    requires IndexOf(s, d) == i
    ensures IndexOf(s[..i] + d, d) == i
    ensures s == s[..i] + d + s[i + |d|..]
  {
    var p := s[..i + |d|];
    assert s[..i] + d == p;
    assert p + s[i + |d|..] == s;
    assert OccursAt(p, d, i);
    IndexOfAppend(p, s[i + |d|..], d);
  }

  /** `s.split(d)` for a non-empty separator `d`. */
  function Split(s: string, d: string): (ps: seq<string>)
    requires |d| > 0
    ensures |ps| >= 1
    decreases |s|
  {
    var i := IndexOf(s, d);
    if i < 0 then [s] else [s[..i]] + Split(s[i + |d|..], d)
  }

  /** A piece ended by the first occurrence of `d`, put in front of a separated list, keeps it separated. */
  lemma SeparatedCons(p: string, qs: seq<string>, d: string)
    requires IndexOf(p + d, d) == |p| && Separated(qs, d)
    ensures Separated([p] + qs, d)
  {
    var ps := [p] + qs;
    forall k | 0 < k < |ps| - 1
      ensures IndexOf(ps[k] + d, d) == |ps[k]|
    {
      assert ps[k] == qs[k - 1];
    }
    assert ps[|ps| - 1] == qs[|qs| - 1];
  }

  /** Every result of `Split` has the shape `Separated` describes. */
  lemma {:induction false} SplitSeparated(s: string, d: string)
    requires |d| > 0
    ensures Separated(Split(s, d), d)
    decreases |s|
  {
    var i := IndexOf(s, d);
    if i >= 0 {
      var rest := s[i + |d|..];
      FirstOccurrenceEndsPiece(s, d, i);
      SplitSeparated(rest, d);
      SeparatedCons(s[..i], Split(rest, d), d);
    }
  }

  /** Joining the pieces of a split with the separator gives the string back. */
  lemma {:induction false} SplitJoins(s: string, d: string)
    requires |d| > 0
    ensures Join(Split(s, d), d) == s
    decreases |s|
  {
    var i := IndexOf(s, d);
    if i >= 0 {
      var rest := s[i + |d|..];
      var qs := Split(rest, d);
      var ps := Split(s, d);
      assert ps == [s[..i]] + qs;
      assert ps[1..] == qs;
      FirstOccurrenceEndsPiece(s, d, i);
      SplitJoins(rest, d);
      assert Join(ps, d) == s[..i] + d + Join(qs, d);
    }
  }

  /** Splitting a joined list gives the list back, for every list of the shape `Split` produces. */
  lemma {:induction false} SplitJoin(ps: seq<string>, d: string)
    requires |d| > 0 && Separated(ps, d)
    ensures Split(Join(ps, d), d) == ps
    decreases |ps|
  {
    if |ps| > 1 {
      var rest := ps[1..];
      assert Separated(rest, d) by {
        forall k | 0 <= k < |rest| - 1
          ensures IndexOf(rest[k] + d, d) == |rest[k]|
        {
          assert rest[k] == ps[k + 1];
        }
      }
      SplitCons(ps[0], d, Join(rest, d));
      SplitJoin(rest, d);
      assert ps == [ps[0]] + rest;
    }
  }

  /** A piece ended by the first occurrence of `d` is split off the front. */
  lemma SplitCons(p: string, d: string, rest: string)
    requires |d| > 0 && IndexOf(p + d, d) == |p|
    ensures Split(p + d + rest, d) == [p] + Split(rest, d)
  {
    IndexOfAppend(p + d, rest, d);
    var s := p + d + rest;
    assert s[..|p|] == p;
    assert s[|p| + |d|..] == rest;
  }

  lemma SplitAbsent(s: string, d: string)
    requires |d| > 0 && !Occurs(s, d)
    ensures Split(s, d) == [s]
  {
  }

  /** `s.replace(pat, '')` for a string pattern: only the first occurrence is removed. */
  function RemoveFirst(s: string, pat: string): (r: string)
    ensures !Occurs(s, pat) ==> r == s
    ensures Occurs(s, pat) ==> |r| == |s| - |pat| && s == r[..IndexOf(s, pat)] + pat + r[IndexOf(s, pat)..]
  {
    var i := IndexOf(s, pat);
    if i < 0 then s else s[..i] + s[i + |pat|..]
  }

  /**
   * White space as `trim` and `parseInt` skip it: the WhiteSpace and
   * LineTerminator code points of ECMA-262 (tab, vertical tab, form feed,
   * the byte order mark, the Unicode category Zs, LF, CR, LS and PS).
   */
  predicate IsSpace(c: char) {
    var n := c as int;
    || n == 0x09 || n == 0x0A || n == 0x0B || n == 0x0C || n == 0x0D
    || n == 0x20 || n == 0xA0 || n == 0x1680 || (0x2000 <= n <= 0x200A)
    || n == 0x2028 || n == 0x2029 || n == 0x202F || n == 0x205F || n == 0x3000
    || n == 0xFEFF
  }

  /** `s` without its leading white space. */
  function TrimStart(s: string): (r: string)
    ensures |r| <= |s| && r == s[|s| - |r|..]
    ensures forall i :: 0 <= i < |s| - |r| ==> IsSpace(s[i])
    ensures r == "" || !IsSpace(r[0])
  {
    if |s| > 0 && IsSpace(s[0]) then TrimStart(s[1..]) else s
  }

  /** `s` without its trailing white space. */
  function TrimEnd(s: string): (r: string)
    ensures |r| <= |s| && r == s[..|r|]
    ensures forall i :: |r| <= i < |s| ==> IsSpace(s[i])
    ensures r == "" || !IsSpace(r[|r| - 1])
  {
    if |s| > 0 && IsSpace(s[|s| - 1]) then TrimEnd(s[..|s| - 1]) else s
  }

  /** `s.trim()`: `s` without its leading and trailing white space. */
  function Trim(s: string): (r: string)
    ensures |r| <= |s|
    ensures r == "" || (!IsSpace(r[0]) && !IsSpace(r[|r| - 1]))
  {
    TrimEnd(TrimStart(s))
  }

  /**
   * The trim is the slice of `s` left once the white space before and after
   * it is taken away; since the slice neither starts nor ends with white
   * space, this determines it.
   */
  lemma TrimSlice(s: string)
    ensures exists i, j ::
              && 0 <= i <= j <= |s| && Trim(s) == s[i..j]
              && (forall k :: 0 <= k < i ==> IsSpace(s[k]))
              && (forall k :: j <= k < |s| ==> IsSpace(s[k]))
  {
    var t := TrimStart(s);
    var r := Trim(s);
    var i := |s| - |t|;
    var j := i + |r|;
    assert r == t[..|r|];
    assert t == s[i..];
    assert r == s[i..j];
    forall k | j <= k < |s|
      ensures IsSpace(s[k])
    {
      assert s[k] == t[k - i];
    }
  }

  /** Every character of the trim is a character of the string. */
  lemma TrimIn(s: string, k: nat)
    requires k < |Trim(s)|
    ensures Trim(s)[k] in s
  {
    var t := TrimStart(s);
    assert Trim(s)[k] == t[k];
    assert t[k] == s[|s| - |t| + k];
  }

  lemma {:induction false} TrimStartSpaces(pre: string, s: string)
    requires forall i :: 0 <= i < |pre| ==> IsSpace(pre[i])
    requires s == "" || !IsSpace(s[0])
    ensures TrimStart(pre + s) == s
    decreases |pre|
  {
    if |pre| > 0 {
      assert (pre + s)[1..] == pre[1..] + s;
      TrimStartSpaces(pre[1..], s);
    }
  }

  /** `toLowerCase` on one character; only the letters A to Z are mapped. */
  function LowerChar(c: char): char {
    if 'A' <= c <= 'Z' then (c as int + 32) as char else c
  }

  /** `s.toLowerCase()`, character by character. */
  function ToLower(s: string): (r: string)
    ensures |r| == |s|
    ensures forall i :: 0 <= i < |s| ==> r[i] == LowerChar(s[i])
  {
    seq(|s|, i requires 0 <= i < |s| => LowerChar(s[i]))
  }

  lemma ToLowerAppend(a: string, b: string)
    ensures ToLower(a + b) == ToLower(a) + ToLower(b)
  {
    assert forall i :: 0 <= i < |a + b| ==> ToLower(a + b)[i] == (ToLower(a) + ToLower(b))[i];
  }

  /** The value of `c` as a digit in base `radix` (10 or 16), or -1 when it is not one. */
  function DigitValue(c: char, radix: nat): int {
    var v :=
      if '0' <= c <= '9' then c as int - '0' as int
      else if 'a' <= c <= 'f' then c as int - 'a' as int + 10
      else if 'A' <= c <= 'F' then c as int - 'A' as int + 10
      else -1;
    if v < radix then v else -1
  }

  /** The length of the longest prefix of `s` made only of base-`radix` digits. */
  function DigitRun(s: string, radix: nat): (n: nat)
    ensures n <= |s|
    ensures forall i :: 0 <= i < n ==> DigitValue(s[i], radix) >= 0
    ensures n < |s| ==> DigitValue(s[n], radix) < 0
  {
    if |s| > 0 && DigitValue(s[0], radix) >= 0 then 1 + DigitRun(s[1..], radix) else 0
  }

  /** The number the digits `ds` denote in base `radix`, most significant digit first. */
  function DigitsValue(ds: string, radix: nat): int
  {
    if |ds| == 0 then 0
    else DigitsValue(ds[..|ds| - 1], radix) * radix + DigitValue(ds[|ds| - 1], radix)
  }

  /**
   * The global `parseInt(s)` without a radix, `None` standing for NaN: skip
   * leading white space, take an optional sign, switch to base 16 after a
   * `0x` or `0X` prefix, and read the longest run of digits that follows.
   */
  function ParseInt(s: string): Option<int>
  {
    ParseSigned(TrimStart(s))
  }

  /** `parseInt` after the leading white space: an optional sign, then the digits. */
  function ParseSigned(t: string): Option<int>
  {
    if |t| > 0 && t[0] == '-' then
      match ParseUnsigned(t[1..])
      case None => None
      case Some(v) => Some(-v)
    else if |t| > 0 && t[0] == '+' then ParseUnsigned(t[1..])
    else ParseUnsigned(t)
  }

  /** `parseInt` after the sign: a hexadecimal run after `0x` or `0X`, a decimal run otherwise. */
  function ParseUnsigned(u: string): Option<int>
  {
    if |u| >= 2 && u[0] == '0' && (u[1] == 'x' || u[1] == 'X') then ParseRun(u[2..], 16)
    else ParseRun(u, 10)
  }

  /** The value of the longest prefix of base-`radix` digits, `None` when it is empty. */
  function ParseRun(w: string, radix: nat): Option<int>
  {
    var n := DigitRun(w, radix);
    if n == 0 then None else Some(DigitsValue(w[..n], radix))
  }

  function DigitChar(d: nat): (c: char)
    requires d < 10
    ensures '0' <= c <= '9' && DigitValue(c, 10) == d
  {
    ('0' as int + d) as char
  }

  /** The decimal digits of `n`, without leading zeros (how JavaScript prints a non-negative integer). */
  function NatToString(n: nat): (r: string)
    ensures |r| >= 1
    ensures forall i :: 0 <= i < |r| ==> '0' <= r[i] <= '9'
    ensures r[0] == '0' ==> n == 0
    decreases n
  {
    if n < 10 then [DigitChar(n)] else NatToString(n / 10) + [DigitChar(n % 10)]
  }

  /** Reading the printed digits back gives the number. */
  lemma {:induction false} NatToStringValue(n: nat)
    ensures DigitsValue(NatToString(n), 10) == n
    decreases n
  {
    if n >= 10 {
      NatToStringValue(n / 10);
      var s := NatToString(n);
      assert s[..|s| - 1] == NatToString(n / 10);
    }
  }

  lemma NatToStringInjective(a: nat, b: nat)
    requires NatToString(a) == NatToString(b)
    ensures a == b
  {
    NatToStringValue(a);
    NatToStringValue(b);
  }

  /** How JavaScript prints an integral number. */
  function IntToString(i: int): string {
    if i < 0 then "-" + NatToString(-i) else NatToString(i)
  }

  lemma DigitRunAll(ds: string, radix: nat)
    requires forall i :: 0 <= i < |ds| ==> DigitValue(ds[i], radix) >= 0
    ensures DigitRun(ds, radix) == |ds|
  {
  }

  /** `parseInt` on a run of decimal digits that does not start with a sign, a space or `0x`. */
  lemma ParseIntDigits(ds: string)
    requires |ds| > 0 && forall i :: 0 <= i < |ds| ==> '0' <= ds[i] <= '9'
    ensures ParseInt(ds) == Some(DigitsValue(ds, 10))
  {
    assert !IsSpace(ds[0]);
    assert TrimStart(ds) == ds;
    assert ParseUnsigned(ds) == ParseRun(ds, 10);
    DigitRunAll(ds, 10);
    assert ds[..|ds|] == ds;
  }

  /** `parseInt` ignores leading white space. */
  lemma ParseIntSkipsSpace(pre: string, s: string)
    requires forall i :: 0 <= i < |pre| ==> IsSpace(pre[i])
    requires s == "" || !IsSpace(s[0])
    ensures ParseInt(pre + s) == ParseInt(s)
  {
    TrimStartSpaces(pre, s);
    TrimStartSpaces("", s);
    assert "" + s == s;
    assert TrimStart(pre + s) == TrimStart(s);
  }

  /** `parseInt` reads back what `NatToString` prints, after any leading white space. */
  lemma ParseIntShow(pre: string, n: nat)
    requires forall i :: 0 <= i < |pre| ==> IsSpace(pre[i])
    ensures ParseInt(pre + NatToString(n)) == Some(n)
  {
    var ds := NatToString(n);
    assert !IsSpace(ds[0]);
    ParseIntSkipsSpace(pre, ds);
    ParseIntDigits(ds);
    NatToStringValue(n);
  }
}
