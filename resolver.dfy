/**
 * The patch resolver: it buffers incoming chunks until the fixed-boundary
 * parser accepts the text, then reports the first part as the response and
 * folds every later part onto the previous response as a patch, reporting
 * each new response through `onResponse`.
 */
module Resolver {
  import opened Wrappers
  import opened Js
  import opened Patch
  import opened FixedMultipart

  /** What the resolver remembers between parts: the last response, how many parts it has handled, and every response it has reported. */
  datatype Session = Session(previousResponse: Value, processedChunks: nat, responses: seq<Value>)

  /** A session and the exception, if any, that ended the handling of a chunk. */
  datatype Outcome = Outcome(session: Session, error: Option<Exception>)

  /** The session of a new resolver. */
  const Fresh: Session := Session(Null, 0, [])

  /** How a later part is folded onto the previous response; the resolver uses `Patched`. */
  type Patcher = (Value, Value) -> Result<Value, Exception>

  /**
   * One iteration of the `for (const part of results)` loop: the first part
   * ever handled becomes the response as it is; every later one is a patch
   * onto the previous response. A successful step reports the new response
   * and counts the part; a patch that throws changes nothing.
   */
  function Step(s: Session, part: Value, patch: Patcher): (r: Result<Session, Exception>)
    ensures r.Ok? ==> r.value.processedChunks == s.processedChunks + 1 && r.value.responses == s.responses + [r.value.previousResponse]
    ensures s.processedChunks == 0 ==> r == Ok(Session(part, 1, s.responses + [part]))
    ensures s.processedChunks > 0 ==> (r.Ok? <==> patch(s.previousResponse, part).Ok?)
    ensures s.processedChunks > 0 && r.Ok? ==> r.value.previousResponse == patch(s.previousResponse, part).value
  {
    if s.processedChunks == 0 then
      Ok(Session(part, 1, s.responses + [part]))
    else
      match patch(s.previousResponse, part)
      case Err(e) => Err(e)
      case Ok(next) => Ok(Session(next, s.processedChunks + 1, s.responses + [next]))
  }

  /**
   * The loop over all parts of one chunk, in order, stopping at the first
   * part that throws; the parts before it keep their effect. Every part
   * handled adds exactly one response to the ones reported before, and
   * without an exception every part is handled.
   */
  function Feed(s: Session, parts: seq<Value>, patch: Patcher): (o: Outcome)
    ensures |o.session.responses| == |s.responses| + (o.session.processedChunks - s.processedChunks)
    ensures s.processedChunks <= o.session.processedChunks <= s.processedChunks + |parts|
    ensures o.session.responses[..|s.responses|] == s.responses
    ensures o.error.None? ==> o.session.processedChunks == s.processedChunks + |parts|
    ensures o.session.processedChunks > s.processedChunks ==> o.session.responses[|o.session.responses| - 1] == o.session.previousResponse
    ensures o.session.processedChunks == s.processedChunks ==> o.session == s
    decreases |parts|
  {
    if |parts| == 0 then Outcome(s, None)
    else
      var o := Feed(s, parts[..|parts| - 1], patch);
      if o.error.Some? then o
      else
        match Step(o.session, parts[|parts| - 1], patch)
        case Err(e) => Outcome(o.session, Some(e))
        case Ok(next) =>
          assert next.responses[..|s.responses|] == o.session.responses[..|s.responses|];
          Outcome(next, None)
  }

  /** Handling parts in two runs is handling them in one, unless the first run throws. */
  lemma {:induction false} FeedAppend(s: Session, a: seq<Value>, b: seq<Value>, patch: Patcher)
    ensures Feed(s, a + b, patch) == if Feed(s, a, patch).error.Some? then Feed(s, a, patch) else Feed(Feed(s, a, patch).session, b, patch)
    decreases |b|
  {
    if |b| == 0 {
      assert a + b == a;
    } else {
      var b' := b[..|b| - 1];
      assert (a + b)[..|a + b| - 1] == a + b';
      assert (a + b)[|a + b| - 1] == b[|b| - 1];
      FeedAppend(s, a, b', patch);
      if Feed(s, a, patch).error.Some? {
        FeedErrorSticks(s, a, b', patch);
      }
    }
  }

  /** Once a run of parts throws, handling further parts after it is no longer reached. */
  lemma {:induction false} FeedErrorSticks(s: Session, a: seq<Value>, b: seq<Value>, patch: Patcher)
    requires Feed(s, a, patch).error.Some?
    ensures Feed(s, a + b, patch) == Feed(s, a, patch)
    decreases |b|
  {
    if |b| == 0 {
      assert a + b == a;
    } else {
      var b' := b[..|b| - 1];
      assert (a + b)[..|a + b| - 1] == a + b';
      FeedErrorSticks(s, a, b', patch);
    }
  }

  /**
   * A chunk is handled without an exception exactly when every part, taken
   * in the session the earlier parts leave, is accepted.
   */
  lemma FeedOkIff(s: Session, parts: seq<Value>, patch: Patcher)
    ensures Feed(s, parts, patch).error.None? <==> forall k :: 0 <= k < |parts| ==> Step(Feed(s, parts[..k], patch).session, parts[k], patch).Ok?
  {
    if Feed(s, parts, patch).error.None? {
      forall k | 0 <= k < |parts|
        ensures Step(Feed(s, parts[..k], patch).session, parts[k], patch).Ok?
      {
        FeedOkPrefix(s, parts, k, patch);
      }
    } else {
      FeedOkAll(s, parts, patch);
    }
  }

  /** A run without an exception accepted every one of its parts. */
  lemma FeedOkPrefix(s: Session, parts: seq<Value>, k: nat, patch: Patcher)
    requires k < |parts| && Feed(s, parts, patch).error.None?
    ensures Step(Feed(s, parts[..k], patch).session, parts[k], patch).Ok?
  {
    assert parts == parts[..k + 1] + parts[k + 1..];
    assert parts[..k + 1] == parts[..k] + [parts[k]];
    if Feed(s, parts[..k + 1], patch).error.Some? {
      FeedErrorSticks(s, parts[..k + 1], parts[k + 1..], patch);
    }
    FeedSnocOk(s, parts[..k], parts[k], patch);
  }

  /** A run with an exception has a part it did not accept. */
  lemma {:induction false} FeedOkAll(s: Session, parts: seq<Value>, patch: Patcher)
    requires Feed(s, parts, patch).error.Some?
    ensures exists k :: 0 <= k < |parts| && !Step(Feed(s, parts[..k], patch).session, parts[k], patch).Ok?
    decreases |parts|
  {
    var n := |parts| - 1;
    var init := parts[..n];
    assert parts == init + [parts[n]];
    FeedSnocOk(s, init, parts[n], patch);
    if Feed(s, init, patch).error.Some? {
      FeedOkAll(s, init, patch);
      var k :| 0 <= k < n && !Step(Feed(s, init[..k], patch).session, init[k], patch).Ok?;
      assert init[..k] == parts[..k] && init[k] == parts[k];
    } else {
      assert !Step(Feed(s, parts[..n], patch).session, parts[n], patch).Ok?;
    }
  }

  /** One more part is handled without an exception exactly when the run before it was and the part is accepted. */
  lemma FeedSnocOk(s: Session, a: seq<Value>, x: Value, patch: Patcher)
    ensures Feed(s, a + [x], patch).error.None? <==> Feed(s, a, patch).error.None? && Step(Feed(s, a, patch).session, x, patch).Ok?
  {
    assert (a + [x])[..|a|] == a;
  }

  /** A part that throws after a run that did not throw ends the run in the session it found. */
  lemma FeedSnocErr(s: Session, a: seq<Value>, x: Value, patch: Patcher)
    requires Feed(s, a, patch).error.None? && Step(Feed(s, a, patch).session, x, patch).Err?
    ensures Feed(s, a + [x], patch) == Outcome(Feed(s, a, patch).session, Some(Step(Feed(s, a, patch).session, x, patch).error))
  {
    assert (a + [x])[..|a|] == a;
  }

  /** The part that throws leaves the session where the parts before it left it, and its exception is the one reported. */
  lemma FeedStopsAt(s: Session, parts: seq<Value>, k: nat, patch: Patcher)
    requires k < |parts| && Feed(s, parts[..k], patch).error.None?
    requires Step(Feed(s, parts[..k], patch).session, parts[k], patch).Err?
    ensures Feed(s, parts, patch) == Outcome(Feed(s, parts[..k], patch).session, Some(Step(Feed(s, parts[..k], patch).session, parts[k], patch).error))
  {
    var a := parts[..k];
    assert parts[..k + 1] == a + [parts[k]];
    FeedSnocErr(s, a, parts[k], patch);
    assert parts == parts[..k + 1] + parts[k + 1..];
    FeedErrorSticks(s, parts[..k + 1], parts[k + 1..], patch);
  }

  /**
   * From a new resolver, the responses reported are the first part as it is
   * and then, for every later part, the patch of the previous response by
   * that part.
   */
  lemma {:induction false} FeedFromFresh(parts: seq<Value>, patch: Patcher)
    requires Feed(Fresh, parts, patch).error.None?
    ensures var r := Feed(Fresh, parts, patch).session.responses;
      && |r| == |parts|
      && (|parts| > 0 ==> r[0] == parts[0])
      && forall i :: 0 < i < |parts| ==> patch(r[i - 1], parts[i]) == Ok(r[i])
    decreases |parts|
  {
    if |parts| > 0 {
      var n := |parts| - 1;
      var init := parts[..n];
      FeedFromFresh(init, patch);
      var r0 := Feed(Fresh, init, patch).session.responses;
      var r := Feed(Fresh, parts, patch).session.responses;
      assert r[..n] == r0;
      assert forall i :: 0 <= i < n ==> r[i] == r0[i] && parts[i] == init[i];
    }
  }

  /** What the resolver holds: the text buffered so far and its session. */
  datatype State = State(chunkBuffer: string, session: Session)

  /** The state after one `handleChunk` call and the exception, if any, it throws. */
  datatype Handled = Handled(state: State, thrown: Option<Exception>)

  /**
   * `handleChunk(data)` on values: while the buffered text with
   * the new chunk does not parse, the chunk is buffered and nothing is
   * reported; once it parses, the buffer is emptied and its parts are fed
   * to the session. `parse` stands for `JSON.parse`.
   */
  function Handle(st: State, data: string, parse: string -> Value): (h: Handled)
    ensures MultipartPayloads(st.chunkBuffer + data, parse).None? ==>
      h == Handled(State(st.chunkBuffer + data, st.session), None)
    ensures MultipartPayloads(st.chunkBuffer + data, parse).Some? ==>
      h.state.chunkBuffer == "" && Outcome(h.state.session, h.thrown) == Feed(st.session, MultipartPayloads(st.chunkBuffer + data, parse).value, Patched)
  {
    match MultipartPayloads(st.chunkBuffer + data, parse)
    case None => Handled(State(st.chunkBuffer + data, st.session), None)
    case Some(results) =>
      var o := Feed(st.session, results, Patched);
      Handled(State("", o.session), o.error)
  }

  /**
   * A chunk split where the text so far does not yet parse is handled as if
   * it had arrived whole: the first piece is only buffered.
   */
  lemma SplitChunk(st: State, a: string, b: string, parse: string -> Value)
    requires MultipartPayloads(st.chunkBuffer + a, parse).None?
    ensures Handle(Handle(st, a, parse).state, b, parse) == Handle(st, a + b, parse)
  {
    assert st.chunkBuffer + a + b == st.chunkBuffer + (a + b);
  }

  /** A chunk that completes nothing reports nothing and counts no part. */
  lemma IncompleteReportsNothing(st: State, data: string, parse: string -> Value)
    requires MultipartPayloads(st.chunkBuffer + data, parse).None?
    ensures Handle(st, data, parse).state.session == st.session
    ensures Handle(st, data, parse).thrown.None?
  {
  }

  /**
   * `PatchResolver`: the object the transports feed with chunks. Its
   * `onResponse` callback is recorded as the list of responses it was
   * called with, in order.
   */
  class PatchResolver {
    const parse: string -> Value
    var previousResponse: Value
    var chunkBuffer: string
    var processedChunks: nat
    var responses: seq<Value>

    function Current(): State
      reads this
    {
      State(chunkBuffer, Session(previousResponse, processedChunks, responses))
    }

    /** `new PatchResolver({ onResponse })`. */
    constructor(parse: string -> Value)
      ensures this.parse == parse
      ensures Current() == State("", Fresh)
    {
      this.parse := parse;
      previousResponse := Null;
      chunkBuffer := "";
      processedChunks := 0;
      responses := [];
    }

    /** `handleChunk(data)`; the exception it throws, if any, is returned. */
    method HandleChunk(data: string) returns (thrown: Option<Exception>)
      modifies this
      ensures Handled(Current(), thrown) == Handle(old(Current()), data, parse)
    {
      var results := ParseMultipartHTTP(chunkBuffer + data, parse);
      if results.None? {
        chunkBuffer := chunkBuffer + data;
        return None;
      }
      chunkBuffer := "";
      ghost var s0 := Session(previousResponse, processedChunks, responses);
      var parts := results.value;
      for i := 0 to |parts|
        invariant chunkBuffer == ""
        invariant Feed(s0, parts[..i], Patched) == Outcome(Session(previousResponse, processedChunks, responses), None)
      {
        var part := parts[i];
        assert parts[..i + 1][..i] == parts[..i];
        if processedChunks == 0 {
          previousResponse := part;
          responses := responses + [previousResponse];
        } else {
          var next := Patched(previousResponse, part);
          if next.Err? {
            FeedStopsAt(s0, parts, i, Patched);
            return Some(next.error);
          }
          previousResponse := next.value;
          responses := responses + [previousResponse];
        }
        processedChunks := processedChunks + 1;
      }
      assert parts[..|parts|] == parts;
      return None;
    }
  }
}
