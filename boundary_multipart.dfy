/**
 * `parseMultipartHttp`, the incremental multipart/mixed parser for a
 * boundary taken from the Content-Type: it consumes every complete part at
 * the front of a buffer, skips the preamble before the first delimiter, and
 * hands back what it could not yet use as the new buffer.
 */
module BoundaryMultipart {
  import opened Wrappers
  import opened Text
  import opened Js

  const HeaderBreak: string := "\r\n\r\n"

  /** `getDelimiter`: the line that introduces every part. */
  function Delimiter(boundary: string): (d: string)
  {
    "\r\n--" + boundary + "\r\n"
  }

  /** `getClosingDelimiter`: the line that ends the last part. */
  function ClosingDelimiter(boundary: string): (d: string)
  {
    "\r\n--" + boundary + "--"
  }

  /** Different boundaries give different delimiters, and a delimiter is never a closing delimiter. */
  lemma DelimitersDistinct(b1: string, b2: string)
    ensures Delimiter(b1) == Delimiter(b2) <==> b1 == b2
    ensures ClosingDelimiter(b1) == ClosingDelimiter(b2) <==> b1 == b2
    ensures Delimiter(b1) != ClosingDelimiter(b2)
  {
    if Delimiter(b1) == Delimiter(b2) {
      assert b1 == Delimiter(b1)[4..|b1| + 4];
    }
    if ClosingDelimiter(b1) == ClosingDelimiter(b2) {
      assert b1 == ClosingDelimiter(b1)[4..|b1| + 4];
    }
    if |b1| == |b2| {
      assert Delimiter(b1)[|b1| + 4] == '\r' && ClosingDelimiter(b2)[|b2| + 4] == '-';
    }
  }

  /** The pair `splitWithRest` returns: the text before the first `delim` (None for `undefined`) and the text after it. */
  datatype Cut = Cut(before: Option<string>, rest: string)

  /** `splitWithRest(s, delim)`: cut at the first occurrence of `delim`, or give all of `s` back as the rest. */
  function SplitWithRest(s: string, delim: string): (c: Cut)
    ensures c.before.Some? <==> Occurs(s, delim)
    ensures c.before.Some? ==> |c.before.value| == IndexOf(s, delim)
    ensures c.before.Some? ==> s == c.before.value + delim + c.rest && IndexOf(c.before.value + delim, delim) == |c.before.value|
    ensures c.before.None? ==> c.rest == s
  {
    var index := IndexOf(s, delim);
    if index < 0 then Cut(None, s)
    else
      FirstOccurrenceEndsPiece(s, delim, index);
      Cut(Some(s[..index]), s[index + |delim|..])
  }

  /** A text whose first `d` ends `p` is cut right there. */
  lemma CutAt(p: string, d: string, rest: string)
    requires IndexOf(p + d, d) == |p|
    ensures SplitWithRest(p + d + rest, d) == Cut(Some(p), rest)
  {
    IndexOfAppend(p + d, rest, d);
    var s := p + d + rest;
    assert s[..|p|] == p;
    assert s[|p| + |d|..] == rest;
  }

  /** What the parser returns: the unconsumed text, the payloads so far, and whether the preamble is still ahead. */
  datatype ParseResult = ParseResult(newBuffer: string, parts: seq<Value>, isPreamble: bool)

  /** The test `region.length || region.trim() === ''` on the text before the first delimiter. */
  predicate PreambleGuard(region: string) {
    |region| > 0 || Trim(region) == ""
  }

  /** The guard holds of every string, so only finding the delimiter and the preamble flag decide that branch. */
  lemma PreambleGuardHolds(region: string)
    ensures PreambleGuard(region)
  {
    if |region| == 0 {
      assert TrimStart(region) == "";
    }
  }

  /**
   * The payload text of a part, `body` in `parseMultipartHttp`: what follows the first blank
   * line (all of the part when it has none), with the first delimiter
   * followed by a line break, and then the first closing delimiter followed
   * by a line break, taken out.
   */
  function PartBody(region: string, delimiter: string): string
  {
    var body := SplitWithRest(region, HeaderBreak).rest;
    RemoveFirst(RemoveFirst(body, delimiter + "\r\n"), delimiter + "--\r\n")
  }

  /** A buffer the parser leaves as it is: no part in it can be completed yet. */
  predicate NeedsMore(buffer: string, boundary: string, isPreamble: bool) {
    var d := IndexOf(buffer, Delimiter(boundary));
    && (d < 0 || (d == 0 && !isPreamble))
    && IndexOf(buffer, ClosingDelimiter(boundary)) <= 0
  }

  predicate IsSuffix(s: string, t: string) {
    |s| <= |t| && t[|t| - |s|..] == s
  }

  lemma RestIsSuffix(p: string, q: string)
    ensures IsSuffix(q, p + q)
  {
    assert (p + q)[|p|..] == q;
  }

  lemma SuffixTrans(a: string, b: string, c: string)
    requires IsSuffix(a, b) && IsSuffix(b, c)
    ensures IsSuffix(a, c)
  {
    assert c[|c| - |a|..] == c[|c| - |b|..][|b| - |a|..];
  }

  lemma PrefixTrans(a: seq<Value>, b: seq<Value>, c: seq<Value>)
    requires |a| <= |b| <= |c| && b[..|a|] == a && c[..|b|] == b
    ensures c[..|a|] == a
  {
    assert c[..|a|] == c[..|b|][..|a|];
  }

  /** What one call of `parseMultipartHttp` decides about its buffer before it recurses. */
  datatype Step =
    | Wait                                 // no part can be completed yet
    | SkipPreamble(rest: string)           // the preamble ends at the first delimiter
    | TakePart(region: string, next: string) // a complete part, and the text after its delimiter

  /**
   * The two `splitWithRest` calls of `parseMultipartHttp`: with the preamble still ahead, the first delimiter ends it;
   * otherwise the text before the first delimiter is a part, and failing
   * that (no delimiter, or one at the very start) so is the text before the
   * first closing delimiter. A part must not be empty.
   */
  function NextStep(buffer: string, boundary: string, isPreamble: bool): (st: Step)
    ensures st.Wait? <==> NeedsMore(buffer, boundary, isPreamble)
    ensures st.SkipPreamble? ==> isPreamble && |st.rest| < |buffer| && IsSuffix(st.rest, buffer)
    ensures st.TakePart? ==> st.region != "" && |st.next| < |buffer| && IsSuffix(st.next, buffer)
  {
    var delimiter := Delimiter(boundary);
    var first := SplitWithRest(buffer, delimiter);
    if first.before.Some? && PreambleGuard(first.before.value) && isPreamble then
      RestIsSuffix(first.before.value + delimiter, first.rest);
      SkipPreamble(first.rest)
    else
      var cutDelimiter := if first.before.None? || first.before.value == "" then ClosingDelimiter(boundary) else delimiter;
      var cut := if first.before.None? || first.before.value == "" then SplitWithRest(buffer, cutDelimiter) else first;
      if cut.before.None? || cut.before.value == "" then
        PreambleGuardHolds("");
        Wait
      else
        RestIsSuffix(cut.before.value + cutDelimiter, cut.rest);
        TakePart(cut.before.value, cut.rest)
  }

  /**
   * `parseMultipartHttp(buffer, boundary, previousParts, isPreamble)`;
   * `parse` stands for `JSON.parse`. The payloads found are appended to
   * `previousParts`, the new buffer is empty or an unchanged tail of the
   * buffer in which no part can be completed, and once the preamble has been
   * passed it stays passed.
   */
  function ParseMultipartHttp(buffer: string, boundary: string, previousParts: seq<Value>, isPreamble: bool, parse: string -> Value): (r: ParseResult)
    ensures |r.parts| >= |previousParts| && r.parts[..|previousParts|] == previousParts
    ensures IsSuffix(r.newBuffer, buffer)
    ensures r.newBuffer != "" ==> NeedsMore(r.newBuffer, boundary, r.isPreamble)
    ensures r.isPreamble ==> isPreamble
    decreases |buffer|
  {
    match NextStep(buffer, boundary, isPreamble)
    case Wait => ParseResult(buffer, previousParts, isPreamble)
    case SkipPreamble(rest) =>
      if rest != "" then
        var r := ParseMultipartHttp(rest, boundary, previousParts, false, parse);
        SuffixTrans(r.newBuffer, rest, buffer);
        r
      else
        ParseResult("", previousParts, false)
    case TakePart(region, next) =>
      var parts := previousParts + [parse(PartBody(region, Delimiter(boundary)))];
      if next != "" then
        var r := ParseMultipartHttp(next, boundary, parts, isPreamble, parse);
        SuffixTrans(r.newBuffer, next, buffer);
        PrefixTrans(previousParts, parts, r.parts);
        r
      else
        ParseResult("", parts, isPreamble)
  }

  /**
   * The buffer comes back unchanged, with no new payload and the same
   * preamble flag, exactly when no part can be completed from it.
   */
  lemma NeedsMoreIff(buffer: string, boundary: string, previousParts: seq<Value>, isPreamble: bool, parse: string -> Value)
    ensures ParseMultipartHttp(buffer, boundary, previousParts, isPreamble, parse).newBuffer == buffer
        <==> NeedsMore(buffer, boundary, isPreamble)
    ensures NeedsMore(buffer, boundary, isPreamble) ==>
      ParseMultipartHttp(buffer, boundary, previousParts, isPreamble, parse) == ParseResult(buffer, previousParts, isPreamble)
  {
    var first := SplitWithRest(buffer, Delimiter(boundary));
    PreambleGuardHolds(buffer);
    if first.before.Some? {
      PreambleGuardHolds(first.before.value);
    }
  }

  /** Whatever precedes the first delimiter is discarded: parsing goes on after it with the preamble passed. */
  lemma PreambleDiscarded(preamble: string, rest: string, boundary: string, previousParts: seq<Value>, parse: string -> Value)
    requires IndexOf(preamble + Delimiter(boundary), Delimiter(boundary)) == |preamble|
    ensures ParseMultipartHttp(preamble + Delimiter(boundary) + rest, boundary, previousParts, true, parse)
      == if rest == "" then ParseResult("", previousParts, false)
         else ParseMultipartHttp(rest, boundary, previousParts, false, parse)
  {
    CutAt(preamble, Delimiter(boundary), rest);
    PreambleGuardHolds(preamble);
  }

  /** A complete part followed by a delimiter adds its payload, and parsing goes on after the delimiter. */
  lemma PartThenRest(part: string, rest: string, boundary: string, previousParts: seq<Value>, parse: string -> Value)
    requires part != ""
    requires IndexOf(part + Delimiter(boundary), Delimiter(boundary)) == |part|
    ensures ParseMultipartHttp(part + Delimiter(boundary) + rest, boundary, previousParts, false, parse)
      == ParseMultipartHttp(rest, boundary, previousParts + [parse(PartBody(part, Delimiter(boundary)))], false, parse)
  {
    CutAt(part, Delimiter(boundary), rest);
  }

  /**
   * The last part, ended by the closing delimiter, adds its payload; what
   * follows the closing delimiter is left in the buffer when it holds no
   * further part.
   */
  lemma LastPart(part: string, tail: string, boundary: string, previousParts: seq<Value>, isPreamble: bool, parse: string -> Value)
    requires part != ""
    requires !Occurs(part + ClosingDelimiter(boundary) + tail, Delimiter(boundary))
    requires IndexOf(part + ClosingDelimiter(boundary), ClosingDelimiter(boundary)) == |part|
    requires tail != "" ==> NeedsMore(tail, boundary, isPreamble)
    ensures ParseMultipartHttp(part + ClosingDelimiter(boundary) + tail, boundary, previousParts, isPreamble, parse)
      == ParseResult(tail, previousParts + [parse(PartBody(part, Delimiter(boundary)))], isPreamble)
  {
    CutAt(part, ClosingDelimiter(boundary), tail);
    if tail != "" {
      NeedsMoreIff(tail, boundary, previousParts + [parse(PartBody(part, Delimiter(boundary)))], isPreamble, parse);
    }
  }

  /** Every part followed by the delimiter: `p0 + d + p1 + d + ...`. */
  function Framed(parts: seq<string>, d: string): string
    decreases |parts|
  {
    if |parts| == 0 then "" else parts[0] + d + Framed(parts[1..], d)
  }

  /** The payloads of a list of parts, in order. */
  function Payloads(parts: seq<string>, delimiter: string, parse: string -> Value): seq<Value>
    decreases |parts|
  {
    if |parts| == 0 then [] else [parse(PartBody(parts[0], delimiter))] + Payloads(parts[1..], delimiter, parse)
  }

  /** Every part is non-empty and is ended by the first delimiter after it. */
  ghost predicate Complete(parts: seq<string>, d: string)
    decreases |parts|
  {
    |parts| == 0 || (parts[0] != "" && IndexOf(parts[0] + d, d) == |parts[0]| && Complete(parts[1..], d))
  }

  lemma FramedCons(parts: seq<string>, d: string, rest: string)
    requires |parts| > 0
    ensures Framed(parts, d) + rest == parts[0] + d + (Framed(parts[1..], d) + rest)
  {
  }

  lemma PayloadsCons(previousParts: seq<Value>, parts: seq<string>, d: string, parse: string -> Value)
    requires |parts| > 0
    ensures previousParts + [parse(PartBody(parts[0], d))] + Payloads(parts[1..], d, parse) == previousParts + Payloads(parts, d, parse)
  {
  }

  /** One step of `FramedParts`: the first part, then the rest as the induction hypothesis gives it. */
  lemma FramedStep(buffer: string, parts: seq<string>, rest: string, boundary: string, previousParts: seq<Value>, parse: string -> Value)
    requires |parts| > 0 && Complete(parts, Delimiter(boundary))
    requires buffer == Framed(parts, Delimiter(boundary)) + rest
    requires
      var pp := previousParts + [parse(PartBody(parts[0], Delimiter(boundary)))];
      ParseMultipartHttp(Framed(parts[1..], Delimiter(boundary)) + rest, boundary, pp, false, parse)
        == ParseMultipartHttp(rest, boundary, pp + Payloads(parts[1..], Delimiter(boundary), parse), false, parse)
    ensures ParseMultipartHttp(buffer, boundary, previousParts, false, parse)
      == ParseMultipartHttp(rest, boundary, previousParts + Payloads(parts, Delimiter(boundary), parse), false, parse)
  {
    var d := Delimiter(boundary);
    FramedCons(parts, d, rest);
    PartThenRest(parts[0], Framed(parts[1..], d) + rest, boundary, previousParts, parse);
    PayloadsCons(previousParts, parts, d, parse);
  }

  /** A run of complete parts, each followed by the delimiter, adds their payloads in order. */
  lemma {:induction false} FramedParts(buffer: string, parts: seq<string>, rest: string, boundary: string, previousParts: seq<Value>, parse: string -> Value)
    requires Complete(parts, Delimiter(boundary))
    requires buffer == Framed(parts, Delimiter(boundary)) + rest
    ensures ParseMultipartHttp(buffer, boundary, previousParts, false, parse)
      == ParseMultipartHttp(rest, boundary, previousParts + Payloads(parts, Delimiter(boundary), parse), false, parse)
    decreases |parts|
  {
    if |parts| == 0 {
      assert Payloads(parts, Delimiter(boundary), parse) == [];
      assert previousParts + [] == previousParts;
      assert buffer == rest;
    } else {
      var pp := previousParts + [parse(PartBody(parts[0], Delimiter(boundary)))];
      FramedParts(Framed(parts[1..], Delimiter(boundary)) + rest, parts[1..], rest, boundary, pp, parse);
      FramedStep(buffer, parts, rest, boundary, previousParts, parse);
    }
  }

  /** `Complete` says of every part what `PartThenRest` needs. */
  lemma {:induction false} CompleteIff(parts: seq<string>, d: string)
    ensures Complete(parts, d) <==> forall i :: 0 <= i < |parts| ==> parts[i] != "" && IndexOf(parts[i] + d, d) == |parts[i]|
    decreases |parts|
  {
    if |parts| > 0 {
      CompleteIff(parts[1..], d);
      assert forall i :: 1 <= i < |parts| ==> parts[1..][i - 1] == parts[i];
    }
  }

  /**
   * A whole stream: a preamble, the delimiter, the parts each followed by
   * the delimiter, the last part, the closing delimiter and an epilogue that
   * holds no further part. Every payload is collected in order, the
   * preamble is passed and only the epilogue is left in the buffer.
   */
  lemma StreamRoundTrip(preamble: string, parts: seq<string>, last: string, epilogue: string, boundary: string, previousParts: seq<Value>, parse: string -> Value)
    requires IndexOf(preamble + Delimiter(boundary), Delimiter(boundary)) == |preamble|
    requires Complete(parts, Delimiter(boundary))
    requires last != ""
    requires !Occurs(last + ClosingDelimiter(boundary) + epilogue, Delimiter(boundary))
    requires IndexOf(last + ClosingDelimiter(boundary), ClosingDelimiter(boundary)) == |last|
    requires epilogue != "" ==> NeedsMore(epilogue, boundary, false)
    ensures ParseMultipartHttp(preamble + Delimiter(boundary) + Framed(parts, Delimiter(boundary)) + last + ClosingDelimiter(boundary) + epilogue, boundary, previousParts, true, parse)
      == ParseResult(epilogue, previousParts + Payloads(parts + [last], Delimiter(boundary), parse), false)
  {
    var d := Delimiter(boundary);
    var tail := last + ClosingDelimiter(boundary) + epilogue;
    var body := Framed(parts, d) + tail;
    Reassociate(preamble, d, Framed(parts, d), last, ClosingDelimiter(boundary), epilogue);
    PreambleDiscarded(preamble, body, boundary, previousParts, parse);
    FramedParts(body, parts, tail, boundary, previousParts, parse);
    var pp := previousParts + Payloads(parts, d, parse);
    LastPart(last, epilogue, boundary, pp, false, parse);
    PayloadsSnoc(previousParts, parts, last, d, parse);
  }

  lemma Reassociate(a: string, b: string, c: string, d: string, e: string, f: string)
    ensures a + b + c + d + e + f == a + b + (c + (d + e + f))
  {
  }

  lemma PayloadsSnoc(previousParts: seq<Value>, parts: seq<string>, last: string, d: string, parse: string -> Value)
    ensures previousParts + Payloads(parts, d, parse) + [parse(PartBody(last, d))] == previousParts + Payloads(parts + [last], d, parse)
  {
    PayloadsAppend(parts, last, d, parse);
  }

  /** The payload of a part added at the end comes after the others. */
  lemma {:induction false} PayloadsAppend(parts: seq<string>, last: string, d: string, parse: string -> Value)
    ensures Payloads(parts, d, parse) + [parse(PartBody(last, d))] == Payloads(parts + [last], d, parse)
    decreases |parts|
  {
    if |parts| == 0 {
      assert parts + [last] == [last];
    } else {
      assert (parts + [last])[0] == parts[0];
      assert (parts + [last])[1..] == parts[1..] + [last];
      PayloadsAppend(parts[1..], last, d, parse);
    }
  }

  /** The payload text of a part is what its headers are followed by, when it holds no trailing delimiter lines. */
  lemma PartBodyOf(headers: string, body: string, delimiter: string)
    requires IndexOf(headers + HeaderBreak, HeaderBreak) == |headers|
    requires !Occurs(body, delimiter + "\r\n") && !Occurs(body, delimiter + "--\r\n")
    ensures PartBody(headers + HeaderBreak + body, delimiter) == body
  {
    CutAt(headers, HeaderBreak, body);
  }

  /** A part without a blank line is all payload text. */
  lemma PartBodyWithoutHeaders(region: string, delimiter: string)
    requires !Occurs(region, HeaderBreak)
    ensures PartBody(region, delimiter) == RemoveFirst(RemoveFirst(region, delimiter + "\r\n"), delimiter + "--\r\n")
  {
  }
}
