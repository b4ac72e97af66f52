/**
 * `parseMultipartHTTP`, the parser the patch resolver uses: it splits the
 * whole text on the fixed boundary `\r\n---\r\n`, checks each non-empty
 * piece's Content-Length against its body and returns every payload, or
 * null as soon as one piece does not check.
 */
module FixedMultipart {
  import opened Wrappers
  import opened Text
  import opened Js

  const Boundary: string := "\r\n---\r\n"
  const TerminatingBoundary: string := "\r\n-----\r\n"
  const HeaderBreak: string := "\r\n\r\n"
  const LineBreak: string := "\r\n"
  const LengthName: string := "content-length:"

  /** A header line that names the length: `content-length:` anywhere in it, ignoring case. */
  predicate IsLengthLine(line: string) {
    IndexOf(ToLower(line), LengthName) >= 0
  }

  /** The index `headersArr.find(...)` stops at: the first length line, or the number of lines when there is none. */
  function FirstLengthLine(lines: seq<string>): (i: nat)
    ensures i <= |lines|
    ensures i < |lines| ==> IsLengthLine(lines[i])
    ensures forall j :: 0 <= j < i ==> !IsLengthLine(lines[j])
  {
    if |lines| == 0 || IsLengthLine(lines[0]) then 0 else 1 + FirstLengthLine(lines[1..])
  }

  /** The length a header line declares: exactly one `:` in it, and `parseInt` of what follows it is a number. */
  function DeclaredLength(line: string): Option<int>
  {
    var pieces := Split(line, ":");
    if |pieces| == 2 && ParseInt(pieces[1]).Some? then ParseInt(pieces[1]) else None
  }

  /**
   * The length the header block of a piece declares (`headersArr.find` and
   * the `contentLengthArr` test): the first header line naming the length
   * must exist and declare a number; None is the parser's `return null`.
   */
  function HeaderLength(headers: string): Option<int>
  {
    var headersArr := Split(headers, LineBreak);
    var i := FirstLengthLine(headersArr);
    if i == |headersArr| then None else DeclaredLength(headersArr[i])
  }

  /**
   * The body of a piece from its header block and the text after its first
   * blank line, if any (`partArr[1]` and the body checks): the text must be
   * non-empty and, once its first terminating boundary is taken out, as long
   * as declared.
   */
  function CheckedBody(headers: string, text: Option<string>): Option<string>
  {
    match HeaderLength(headers)
    case None => None
    case Some(contentLength) =>
      if text.None? || text.value == "" then None
      else
        var body := RemoveFirst(text.value, TerminatingBoundary);
        if |body| != contentLength then None else Some(body)
  }

  /** The body of one non-empty piece, or None where the parser returns null. */
  function PieceBody(piece: string): Option<string>
  {
    var partArr := Split(piece, HeaderBreak);
    CheckedBody(partArr[0], if |partArr| >= 2 then Some(partArr[1]) else None)
  }

  /**
   * The loop of the parser over a list of pieces, in order: empty pieces are
   * skipped, the first piece `body` rejects makes the whole result None, and
   * every other piece contributes its parsed body.
   */
  function Gather(pieces: seq<string>, body: string -> Option<string>, parse: string -> Value): Option<seq<Value>>
    decreases |pieces|
  {
    if |pieces| == 0 then Some([])
    else
      match Gather(pieces[..|pieces| - 1], body, parse)
      case None => None
      case Some(vs) =>
        var piece := pieces[|pieces| - 1];
        if piece == "" then Some(vs)
        else
          match body(piece)
          case None => None
          case Some(b) => Some(vs + [parse(b)])
  }

  /** The parser's result on a list of pieces. */
  function Payloads(pieces: seq<string>, parse: string -> Value): Option<seq<Value>>
  {
    Gather(pieces, PieceBody, parse)
  }

  /** The result of the parser on a whole text. */
  function MultipartPayloads(plaintext: string, parse: string -> Value): Option<seq<Value>>
  {
    Payloads(Split(plaintext, Boundary), parse)
  }

  /** Once a prefix of the pieces makes the result None, the whole list does. */
  lemma {:induction false} GatherNoneSticks(pieces: seq<string>, k: nat, body: string -> Option<string>, parse: string -> Value)
    requires k <= |pieces| && Gather(pieces[..k], body, parse).None?
    ensures Gather(pieces, body, parse).None?
    decreases |pieces| - k
  {
    if k < |pieces| {
      assert pieces[..k + 1][..k] == pieces[..k];
      GatherNoneSticks(pieces, k + 1, body, parse);
    } else {
      assert pieces[..k] == pieces;
    }
  }

  /**
   * `parseMultipartHTTP(plaintext)`: the loop over the split pieces, with
   * its early `return null` exits. `parse` stands for `JSON.parse`.
   */
  method ParseMultipartHTTP(plaintext: string, parse: string -> Value) returns (results: Option<seq<Value>>)
    ensures results == MultipartPayloads(plaintext, parse)
  {
    var parts := Split(plaintext, Boundary);
    var acc: seq<Value> := [];
    for n := 0 to |parts|
      invariant Payloads(parts[..n], parse) == Some(acc)
    {
      var part := parts[n];
      assert parts[..n + 1][..n] == parts[..n];
      assert parts[..n + 1][n] == part;
      if |part| > 0 {
        var partArr := Split(part, HeaderBreak);
        var headers := partArr[0];
        var text := if |partArr| >= 2 then Some(partArr[1]) else None;
        assert PieceBody(part) == CheckedBody(headers, text);
        var headersArr := Split(headers, LineBreak);
        var i := FirstLengthLine(headersArr);
        if i == |headersArr| {
          assert HeaderLength(headers) == None;
          GatherNoneSticks(parts, n + 1, PieceBody, parse);
          return None;
        }
        var contentLengthArr := Split(headersArr[i], ":");
        var contentLength: int;
        if |contentLengthArr| == 2 && ParseInt(contentLengthArr[1]).Some? {
          contentLength := ParseInt(contentLengthArr[1]).value;
          assert HeaderLength(headers) == Some(contentLength);
        } else {
          assert HeaderLength(headers) == None;
          GatherNoneSticks(parts, n + 1, PieceBody, parse);
          return None;
        }
        if text.Some? && |text.value| > 0 {
          var body := RemoveFirst(text.value, TerminatingBoundary);
          if |body| != contentLength {
            GatherNoneSticks(parts, n + 1, PieceBody, parse);
            return None;
          }
          acc := acc + [parse(body)];
        } else {
          GatherNoneSticks(parts, n + 1, PieceBody, parse);
          return None;
        }
      }
    }
    assert parts[..|parts|] == parts;
    results := Some(acc);
  }

  /** The non-empty pieces, in order. */
  function NonEmpty(pieces: seq<string>): seq<string>
    decreases |pieces|
  {
    if |pieces| == 0 then []
    else NonEmpty(pieces[..|pieces| - 1]) + (if pieces[|pieces| - 1] == "" then [] else [pieces[|pieces| - 1]])
  }

  /**
   * All or nothing: the result is None exactly when some non-empty piece is
   * rejected; otherwise it holds one payload per non-empty piece, in input
   * order (so `[]` when there are none), each the parsed body of its piece.
   */
  lemma {:induction false} GatherSpec(pieces: seq<string>, body: string -> Option<string>, parse: string -> Value)
    ensures Gather(pieces, body, parse).None? <==> exists i :: 0 <= i < |pieces| && pieces[i] != "" && body(pieces[i]).None?
    ensures Gather(pieces, body, parse).Some? ==>
      var vs := Gather(pieces, body, parse).value;
      var ne := NonEmpty(pieces);
      && |vs| == |ne|
      && forall k :: 0 <= k < |vs| ==> body(ne[k]).Some? && vs[k] == parse(body(ne[k]).value)
    decreases |pieces|
  {
    if |pieces| > 0 {
      var init := pieces[..|pieces| - 1];
      GatherSpec(init, body, parse);
      assert forall i :: 0 <= i < |init| ==> init[i] == pieces[i];
      if Gather(init, body, parse).None? {
        var i :| 0 <= i < |init| && init[i] != "" && body(init[i]).None?;
        assert pieces[i] == init[i];
      }
    }
  }

  /** `GatherSpec` for the parser's own piece check. */
  lemma PayloadsSpec(pieces: seq<string>, parse: string -> Value)
    ensures Payloads(pieces, parse).None? <==> exists i :: 0 <= i < |pieces| && pieces[i] != "" && PieceBody(pieces[i]).None?
    ensures Payloads(pieces, parse).Some? ==>
      var vs := Payloads(pieces, parse).value;
      var ne := NonEmpty(pieces);
      && |vs| == |ne|
      && forall k :: 0 <= k < |vs| ==> PieceBody(ne[k]).Some? && vs[k] == parse(PieceBody(ne[k]).value)
  {
    GatherSpec(pieces, PieceBody, parse);
  }

  /** A header block that is not yet complete (no blank line) makes the result null. */
  lemma PieceBodyIncompleteHeaders(piece: string)
    requires !Occurs(piece, HeaderBreak)
    ensures PieceBody(piece).None?
  {
    SplitAbsent(piece, HeaderBreak);
  }

  /** Only the text between the first and the second blank line is the body; what follows the second is ignored. */
  lemma PieceBodyIgnoresTail(headers: string, body: string, tail: string)
    requires IndexOf(headers + HeaderBreak, HeaderBreak) == |headers|
    requires IndexOf(body + HeaderBreak, HeaderBreak) == |body|
    ensures PieceBody(headers + HeaderBreak + body + HeaderBreak + tail) == PieceBody(headers + HeaderBreak + body)
  {
    var whole := headers + HeaderBreak + body + HeaderBreak + tail;
    assert whole == headers + HeaderBreak + (body + HeaderBreak + tail);
    SplitCons(headers, HeaderBreak, body + HeaderBreak + tail);
    SplitCons(body, HeaderBreak, tail);
    var w := Split(whole, HeaderBreak);
    assert w == [headers] + ([body] + Split(tail, HeaderBreak));
    assert |w| >= 2 && w[0] == headers && w[1] == body;
    FirstAtEndNotInside(body, HeaderBreak);
    SplitCons(headers, HeaderBreak, body);
    SplitAbsent(body, HeaderBreak);
    assert Split(headers + HeaderBreak + body, HeaderBreak) == [headers, body];
  }

  /** The length line may name the header in any letter case and anywhere in the line. */
  lemma LengthLineAnywhere(before: string, name: string, after: string)
    requires ToLower(name) == LengthName
    ensures IsLengthLine(before + name + after)
  {
    ToLowerAppend(before + name, after);
    ToLowerAppend(before, name);
    var low := ToLower(before + name + after);
    assert low == ToLower(before) + LengthName + ToLower(after);
    OccursAtShift(ToLower(before), LengthName + ToLower(after), LengthName, 0);
    assert OccursAt(LengthName + ToLower(after), LengthName, 0);
    assert OccursAt(low, LengthName, |before|);
  }

  /** The header line a server writes for a body of `n` characters. */
  function LengthHeader(n: nat): string {
    "Content-Length: " + NatToString(n)
  }

  /** A part as a server writes it: a Content-Length header with the body's length, a blank line, the body. */
  function EncodePart(body: string): string {
    LengthHeader(|body|) + HeaderBreak + body
  }

  function EncodeParts(bodies: seq<string>): (parts: seq<string>)
    ensures |parts| == |bodies| && forall i :: 0 <= i < |bodies| ==> parts[i] == EncodePart(bodies[i])
  {
    seq(|bodies|, i requires 0 <= i < |bodies| => EncodePart(bodies[i]))
  }

  /** A stream of parts, each introduced by the boundary. */
  function EncodeStream(bodies: seq<string>): string {
    Join([""] + EncodeParts(bodies), Boundary)
  }

  /**
   * A body the stream can carry: non-empty, without a blank line or a
   * terminating boundary, and such that neither the body nor the line
   * break before it runs into the boundary that follows it.
   */
  ghost predicate Sendable(body: string) {
    && body != ""
    && !Occurs(body, HeaderBreak)
    && !Occurs(body, TerminatingBoundary)
    && IndexOf(LineBreak + body + Boundary, Boundary) == |body| + 2
  }

  /** A text free of the first character of `d` is ended by the first occurrence of `d` after it. */
  lemma FirstAfterCleanPrefix(p: string, d: string)
    requires |d| > 0 && d[0] !in p
    ensures IndexOf(p + d, d) == |p|
  {
    OccursAtShift(p, d, d, 0);
    assert OccursAt(d, d, 0);
    forall j: nat | j < |p|
      ensures !OccursAt(p + d, d, j)
    {
      assert (p + d)[j] == p[j];
      if j + |d| <= |p + d| {
        assert (p + d)[j..j + |d|][0] == p[j];
      }
    }
    IndexOfIs(p + d, d, |p|);
  }

  /** A piece whose header block is one line without carriage returns splits at its first blank line. */
  lemma PieceOfCleanHeader(h: string, b: string)
    requires '\r' !in h && !Occurs(b, HeaderBreak)
    ensures PieceBody(h + HeaderBreak + b) == CheckedBody(h, Some(b))
    ensures HeaderLength(h) == (if IsLengthLine(h) then DeclaredLength(h) else None)
  {
    FirstAfterCleanPrefix(h, HeaderBreak);
    SplitCons(h, HeaderBreak, b);
    SplitAbsent(b, HeaderBreak);
    assert Split(h + HeaderBreak + b, HeaderBreak) == [h, b];
    NoOccurWithoutFirstChar(h, LineBreak);
    SplitAbsent(h, LineBreak);
  }

  /** A header line with a single colon declares what `parseInt` reads after it. */
  lemma DeclaredLengthOf(name: string, v: string)
    requires ':' !in name && ':' !in v
    ensures DeclaredLength(name + ":" + v) == ParseInt(v)
  {
    FirstAfterCleanPrefix(name, ":");
    SplitCons(name, ":", v);
    NoOccurWithoutFirstChar(v, ":");
    SplitAbsent(v, ":");
    assert Split(name + ":" + v, ":") == [name, v];
  }

  /** The header name as servers capitalise it lowers to the name the parser looks for. */
  lemma CapitalisedLengthName()
    ensures ToLower("Content-Length:") == LengthName
  {
    var name := "Content-Length:";
    var r := ToLower(name);
    forall i | 0 <= i < |r|
      ensures r[i] == LengthName[i]
    {
      assert r[i] == LowerChar(name[i]);
    }
  }

  /** The header of an encoded part is one line. */
  lemma LengthHeaderClean(n: nat)
    ensures '\r' !in LengthHeader(n)
  {
    var ds := NatToString(n);
    assert forall c :: c in ds ==> '0' <= c <= '9';
  }

  /** The header of an encoded part names the length. */
  lemma LengthHeaderNamesLength(n: nat)
    ensures IsLengthLine(LengthHeader(n))
  {
    var ds := NatToString(n);
    assert LengthHeader(n) == "" + "Content-Length:" + (" " + ds);
    CapitalisedLengthName();
    LengthLineAnywhere("", "Content-Length:", " " + ds);
  }

  /** The header of an encoded part declares `n`. */
  lemma LengthHeaderDeclares(n: nat)
    ensures DeclaredLength(LengthHeader(n)) == Some(n)
  {
    var ds := NatToString(n);
    assert forall c :: c in ds ==> '0' <= c <= '9';
    assert LengthHeader(n) == "Content-Length" + ":" + (" " + ds);
    DeclaredLengthOf("Content-Length", " " + ds);
    ParseIntShow(" ", n);
  }

  /** The boundary cannot start inside a carriage-return-free line or the line break after it. */
  lemma BoundaryAfterCleanLine(h: string, t: string)
    requires '\r' !in h && |t| > 0 && t[0] == '\r' && IndexOf(t, Boundary) >= 0
    ensures IndexOf(h + LineBreak + t, Boundary) == |h| + 2 + IndexOf(t, Boundary)
  {
    var p := h + LineBreak;
    var s := p + t;
    var m := IndexOf(t, Boundary);
    OccursAtShift(p, t, Boundary, m);
    forall j: nat | j < |p| + m
      ensures !OccursAt(s, Boundary, j)
    {
      if j >= |p| {
        OccursAtShift(p, t, Boundary, j - |p|);
      } else if j + |Boundary| <= |s| {
        assert s[j..j + |Boundary|][0] == s[j] && s[j..j + |Boundary|][2] == s[j + 2];
        if j < |h| {
          assert s[j] == h[j] && h[j] in h;
        } else if j == |h| {
          assert s[j + 2] == t[0];
        } else {
          assert s[j] == '\n';
        }
      }
    }
    IndexOfIs(s, Boundary, |p| + m);
  }

  /** The boundary after an encoded part is the first one in it. */
  lemma EncodePartBoundary(body: string)
    requires IndexOf(LineBreak + body + Boundary, Boundary) == |body| + 2
    ensures IndexOf(EncodePart(body) + Boundary, Boundary) == |EncodePart(body)|
  {
    var h := LengthHeader(|body|);
    LengthHeaderClean(|body|);
    assert EncodePart(body) + Boundary == h + LineBreak + (LineBreak + body + Boundary);
    BoundaryAfterCleanLine(h, LineBreak + body + Boundary);
  }

  /** An encoded part checks, and its body is the one encoded. */
  lemma PieceBodyEncodePart(body: string)
    requires Sendable(body)
    ensures PieceBody(EncodePart(body)) == Some(body)
  {
    var h := LengthHeader(|body|);
    LengthHeaderClean(|body|);
    LengthHeaderNamesLength(|body|);
    LengthHeaderDeclares(|body|);
    PieceOfCleanHeader(h, body);
  }

  /** Pieces that all decode, after an empty first piece, gather to their parsed bodies in order. */
  lemma {:induction false} GatherDecoded(pieces: seq<string>, bodies: seq<string>, body: string -> Option<string>, parse: string -> Value)
    requires |pieces| == |bodies|
    requires forall i :: 0 <= i < |pieces| ==> pieces[i] != "" && body(pieces[i]) == Some(bodies[i])
    ensures Gather([""] + pieces, body, parse) == Some(seq(|bodies|, i requires 0 <= i < |bodies| => parse(bodies[i])))
    decreases |pieces|
  {
    var all := [""] + pieces;
    if |pieces| == 0 {
      assert all[..0] == [];
    } else {
      var n := |pieces| - 1;
      assert all[..|all| - 1] == [""] + pieces[..n];
      GatherDecoded(pieces[..n], bodies[..n], body, parse);
      assert all[|all| - 1] == pieces[n];
      var before := seq(n, i requires 0 <= i < n => parse(bodies[..n][i]));
      assert before + [parse(bodies[n])] == seq(|bodies|, i requires 0 <= i < |bodies| => parse(bodies[i]));
    }
  }

  /** The encoded stream splits back into an empty first piece and the encoded parts. */
  lemma SplitEncodedStream(bodies: seq<string>)
    requires forall i :: 0 <= i < |bodies| ==> Sendable(bodies[i])
    ensures Split(EncodeStream(bodies), Boundary) == [""] + EncodeParts(bodies)
  {
    var parts := EncodeParts(bodies);
    var pieces := [""] + parts;
    assert Separated(pieces, Boundary) by {
      assert OccursAt("" + Boundary, Boundary, 0);
      IndexOfIs("" + Boundary, Boundary, 0);
      forall k | 0 <= k < |pieces| - 1
        ensures IndexOf(pieces[k] + Boundary, Boundary) == |pieces[k]|
      {
        if k > 0 {
          assert pieces[k] == EncodePart(bodies[k - 1]);
          EncodePartBoundary(bodies[k - 1]);
        }
      }
      if |parts| > 0 {
        EncodePartBoundary(bodies[|parts| - 1]);
        FirstAtEndNotInside(parts[|parts| - 1], Boundary);
      } else {
        assert !OccursAt("", Boundary, 0);
      }
    }
    SplitJoin(pieces, Boundary);
  }

  /**
   * Round trip: a stream of sendable bodies, each after the boundary and
   * with its Content-Length, parses to the parsed bodies in order.
   */
  lemma StreamRoundTrip(bodies: seq<string>, parse: string -> Value)
    requires forall i :: 0 <= i < |bodies| ==> Sendable(bodies[i])
    ensures MultipartPayloads(EncodeStream(bodies), parse) == Some(seq(|bodies|, i requires 0 <= i < |bodies| => parse(bodies[i])))
  {
    SplitEncodedStream(bodies);
    var parts := EncodeParts(bodies);
    forall i | 0 <= i < |parts|
      ensures parts[i] != "" && PieceBody(parts[i]) == Some(bodies[i])
    {
      PieceBodyEncodePart(bodies[i]);
    }
    GatherDecoded(parts, bodies, PieceBody, parse);
  }
}
