# fetch-multipart-graphql core, in Dafny

This project models the part of fetch-multipart-graphql that turns a
streamed `multipart/mixed` HTTP response into a sequence of GraphQL results
for `@defer` and `@stream`. The modules are:

- `Text` covers the JavaScript string built-ins the code relies on:
  `indexOf`, `split`, `replace` with a string pattern, `trim`,
  `toLowerCase` and `parseInt`.
- `Js` covers JavaScript values as `JSON.parse` yields them, plus
  `undefined`. It also covers truthiness, the object spread `{...v}`, the
  property read `v[k]` and the conversion of a value to a property key.
- `FixedMultipart` is `parseMultipartHTTP`, the parser the patch resolver
  uses. It splits the whole text on the fixed boundary `\r\n---\r\n`, skips
  empty pieces, and checks each piece's `Content-Length` header against its
  body. The result is every payload, or `null` (here `None`) as soon as one
  piece does not check.
- `BoundaryMultipart` is `parseMultipartHttp`, the incremental parser for
  a boundary taken from the Content-Type. It skips the preamble, takes
  every complete part at the front of the buffer and returns the rest as
  the new buffer.
- `Patch` holds `applyPatch`, `mergeErrors` and the fold of one later part
  onto the previous response.
- `Resolver` is the `PatchResolver` object. The class
  `Resolver.PatchResolver` has the fields the source updates in place, and
  `HandleChunk` is its loop over the parsed parts. The `onResponse`
  callback appears as the field `responses`: the list of values it was
  called with, in order. The same behaviour is also given on values
  (`Step`, `Feed`, `Handle`), and the method is proved equal to that.
- `ContentType` is `getBoundary`, the `boundary` parameter of a
  Content-Type value. It uses the media-type parameter syntax of section
  5.1 of RFC 2045 and section 5.1 of RFC 2046, as far as the code reads it.

`JSON.parse` is a parameter `parse: string -> Value` of the parsers and of
the resolver. An exception is a `Result` error, either `TypeError` or
`InvalidPatchFormat(part)`.

Behaviour of the code a reader may not expect:

- A part region without a blank line is parsed at once, with the whole
  region as its body; the parser does not wait for more data
  (`BoundaryMultipart.PartBodyWithoutHeaders`).
- A missing interior value on a patch path does not give a path-traversal
  error.
  - One level above the leaf, spreading `undefined` gives `{}`, so the key
    is created (`Patch.MissingParentCreated`).
  - Any higher, the property read on `undefined` throws a `TypeError`
    (`Patch.MissingGrandparentThrows`).
- Patches never splice arrays. `applyPatch` always builds an object by
  spread, so an array becomes an object keyed by its indices.
- A later part is rejected whenever its `path` or its `data` is falsy
  (`null`, `false`, `0`, `''`), not only when `data` is undefined
  (`Patch.PatchedRejects`).
- Responses are emitted once per part, not once per chunk.
- `Content-Length` is compared with the number of characters, not bytes.
  The boundary parser does not read `Content-Length` at all.
- The preamble test `(region.length || region.trim() === '')` holds of
  every string (`BoundaryMultipart.PreambleGuardHolds`).

## Model

| member | source | states |
|---|---|---|
| Text.IndexOf | src/parseMultipartHttp.js:10 | `indexOf` gives the first index where the pattern occurs, and -1 exactly when it does not occur |
| Text.Split | src/parseMultipartHTTP.js:7 | `split` on a non-empty separator: at least one piece; Text.SplitSeparated and Text.SplitJoins state its shape and that it loses nothing |
| Text.SplitSeparated | src/parseMultipartHTTP.js:7 | every `split` result has at least one piece; each piece but the last ends where the first separator after it starts, and the last holds no separator |
| Text.SplitJoins | src/parseMultipartHTTP.js:7 | joining the pieces of a split with the separator gives the string back |
| Text.SplitJoin | src/parseMultipartHTTP.js:7 | splitting a join gives the pieces back, for every list shaped like a split result |
| Text.RemoveFirst | src/parseMultipartHTTP.js:31 | `replace` with a string pattern removes only its first occurrence, and leaves a string without one unchanged |
| Text.Trim | src/getBoundary.js:7 | the trimmed text neither starts nor ends with white space; with Text.TrimSlice this determines it |
| Text.TrimSlice | src/getBoundary.js:7 | the trimmed text is a slice of the original with only white space before and after it |
| Text.TrimIn | src/getBoundary.js:7 | every character of the trimmed text is a character of the original |
| Text.ToLower | src/parseMultipartHTTP.js:16 | `toLowerCase` keeps the length and lowers each character on its own |
| Text.ParseInt | src/parseMultipartHTTP.js:23-24 | `parseInt` without a radix: white space, an optional sign, `0x`, then the longest digit run, and NaN (`None`) without digits; Text.ParseIntSkipsSpace and Text.ParseIntShow are its partners |
| Text.ParseIntSkipsSpace | src/parseMultipartHTTP.js:23-24 | `parseInt` ignores leading white space |
| Text.ParseIntShow | src/parseMultipartHTTP.js:23-24 | `parseInt` reads back a printed non-negative integer after any white space |
| Text.NatToStringInjective | src/PatchResolver.js:9 | different numbers print as different property keys |
| Js.Truthy | src/PatchResolver.js:49 | truthiness: `undefined`, `null`, `false`, `0` and `''` are falsy, every other value is truthy; Patch.PatchedRejects uses it |
| Js.ToKey | src/PatchResolver.js:9 | the property key of a path element: a string is its own key, a number prints in decimal (Text.NatToStringInjective), an array joins its elements with commas |
| Js.Get | src/PatchResolver.js:14 | a property read throws a TypeError exactly on `null` and `undefined`, and on an object it gives the field or `undefined` |
| Js.Spread | src/PatchResolver.js:8 | spreading an object copies its fields, and spreading a value that is not an object, array or string copies nothing |
| Js.GetIndex | src/PatchResolver.js:14 | reading an index of an array, or of its spread copy, gives the element |
| Patch.PathKeys | src/PatchResolver.js:5 | destructuring the path iterates an array's elements or a string's characters, and throws a TypeError on anything else |
| Patch.ApplyPatch | src/PatchResolver.js:4-16 | `applyPatch` itself: a path that is not an array or a string throws a TypeError, the only error; a result is an object keeping the previous value's spread keys |
| Patch.ApplyAt | src/PatchResolver.js:4-16 | the result is an object with the spread keys of the previous value plus the addressed key; every other key is unchanged; a one-key path stores the data and never fails; the only failure is a TypeError |
| Patch.KeepsSiblingsAt | src/PatchResolver.js:12-15 | siblings are kept at every level: at each depth along the path, the patched value is an object with every property of the value there except the next key, unchanged |
| Patch.ApplyAtReadBack | src/PatchResolver.js:4-16 | after a successful patch, reading along the path gives the patch data |
| Patch.ApplyAtOkIff | src/PatchResolver.js:12-15 | a patch succeeds exactly when the path has one key or the value one level above the leaf can be read |
| Patch.MissingParentCreated | src/PatchResolver.js:14 | a missing first key of a two-key path is created as an object that holds the second key |
| Patch.MissingGrandparentThrows | src/PatchResolver.js:14 | a missing first key of a path of three or more keys throws a TypeError |
| Patch.MergeErrors | src/PatchResolver.js:18-27 | with both sides present the result is an array of the previous errors followed by the patch's; one side alone is returned as it is; with neither the result is `undefined` |
| Patch.ErrorList | src/PatchResolver.js:18-27 | the errors a value stands for: none when falsy, an array's elements, or the value itself; Patch.MergeErrors is stated through it |
| Patch.Items | src/PatchResolver.js:20 | what `[].concat(v)` contributes: an array's elements, or the value itself |
| Patch.MergeErrorsAssociative | src/PatchResolver.js:18-27 | merging is associative, so errors accumulate the same over a run of parts |
| Patch.Patched | src/PatchResolver.js:49-56 | the fold of a later part: the only errors are a TypeError and the invalid-patch-format error; success needs a truthy `path` and `data` and gives an object with the previous keys plus `data` and `errors` |
| Patch.PatchedRejects | src/PatchResolver.js:49-51 | a later part without a truthy `path` and a truthy `data` is rejected with an invalid-patch-format error |
| Patch.PatchedFields | src/PatchResolver.js:52-56 | a well-formed part keeps every other field of the response, sets `data` to the patched data and `errors` to exactly `mergeErrors` of the two `errors` fields, so earlier errors survive |
| Patch.PatchedNonIterablePath | src/PatchResolver.js:54 | a truthy path that is not an array or a string throws a TypeError |
| FixedMultipart.IsLengthLine | src/parseMultipartHTTP.js:16 | a line names the length when its lower-cased text contains `content-length:`; FixedMultipart.LengthLineAnywhere is its partner |
| FixedMultipart.DeclaredLength | src/parseMultipartHTTP.js:21-24 | a line declares a length when it splits on `:` into exactly two pieces and `parseInt` of the second is a number; FixedMultipart.DeclaredLengthOf and FixedMultipart.LengthHeaderDeclares are its partners |
| FixedMultipart.HeaderLength | src/parseMultipartHTTP.js:13-27 | the length the first length line declares, or null without one; FixedMultipart.PieceOfCleanHeader is its partner |
| FixedMultipart.CheckedBody | src/parseMultipartHTTP.js:28-39 | the body passes when it is present, non-empty and as long as declared once the first terminating boundary is removed; FixedMultipart.PieceBodyEncodePart is its partner |
| FixedMultipart.PieceBody | src/parseMultipartHTTP.js:11-39 | one piece's checked body; FixedMultipart.PieceBodyIncompleteHeaders, FixedMultipart.PieceBodyIgnoresTail and FixedMultipart.PieceBodyEncodePart are its partners |
| FixedMultipart.Gather | src/parseMultipartHTTP.js:8-42 | the loop over the pieces on values; FixedMultipart.GatherSpec states what it computes |
| FixedMultipart.Payloads | src/parseMultipartHTTP.js:8-42 | the loop with the parser's own piece check; FixedMultipart.PayloadsSpec states what it computes |
| FixedMultipart.MultipartPayloads | src/parseMultipartHTTP.js:2-43 | the parser's result on a whole text; FixedMultipart.ParseMultipartHTTP computes it and FixedMultipart.StreamRoundTrip is its round trip |
| FixedMultipart.FirstLengthLine | src/parseMultipartHTTP.js:15-17 | `find` stops at the first header line naming the length, or runs off the end when there is none |
| FixedMultipart.ParseMultipartHTTP | src/parseMultipartHTTP.js:2-43 | the loop with its early `return null` exits computes exactly the parser's result on the split pieces |
| FixedMultipart.GatherNoneSticks | src/parseMultipartHTTP.js:18-39 | once a piece makes the result null, the whole text does |
| FixedMultipart.GatherSpec | src/parseMultipartHTTP.js:8-42 | all or nothing, for any piece check: null exactly when some non-empty piece is rejected, otherwise one payload per non-empty piece, in order |
| FixedMultipart.PayloadsSpec | src/parseMultipartHTTP.js:3-42 | the same for the parser's own check: null exactly when a non-empty piece fails it; otherwise each non-empty piece gives the parsed checked body, in order, `[]` when there are none |
| FixedMultipart.PieceBodyIncompleteHeaders | src/parseMultipartHTTP.js:28-39 | a piece without a blank line has no body, so the result is null |
| FixedMultipart.PieceBodyIgnoresTail | src/parseMultipartHTTP.js:11-28 | text after a second blank line in a piece is ignored |
| FixedMultipart.LengthLineAnywhere | src/parseMultipartHTTP.js:15-17 | the length header may appear in any letter case and anywhere in its line |
| FixedMultipart.LengthHeaderDeclares | src/parseMultipartHTTP.js:21-24 | a `Content-Length: n` line declares `n` |
| FixedMultipart.PieceBodyEncodePart | src/parseMultipartHTTP.js:10-36 | a part written with its Content-Length and a blank line passes every check and yields its body |
| FixedMultipart.SplitEncodedStream | src/parseMultipartHTTP.js:7 | a stream of such parts, each after the boundary, splits into an empty first piece and the parts |
| FixedMultipart.StreamRoundTrip | src/parseMultipartHTTP.js:2-43 | such a stream parses to the parsed bodies, in order |
| BoundaryMultipart.Delimiter | src/parseMultipartHttp.js:1-3 | the `getDelimiter` template `\r\n--` + boundary + `\r\n`; BoundaryMultipart.DelimitersDistinct is its partner |
| BoundaryMultipart.ClosingDelimiter | src/parseMultipartHttp.js:5-7 | the `getClosingDelimiter` template `\r\n--` + boundary + `--`; BoundaryMultipart.DelimitersDistinct is its partner |
| BoundaryMultipart.DelimitersDistinct | src/parseMultipartHttp.js:1-7 | each delimiter determines its boundary, and a delimiter is never a closing delimiter |
| BoundaryMultipart.SplitWithRest | src/parseMultipartHttp.js:9-15 | `splitWithRest` finds a piece exactly when the delimiter occurs. Then the piece, the delimiter and the rest make the string, and no delimiter ends earlier. Otherwise everything is the rest |
| BoundaryMultipart.CutAt | src/parseMultipartHttp.js:9-15 | text whose first delimiter ends a piece is cut right there |
| BoundaryMultipart.PreambleGuardHolds | src/parseMultipartHttp.js:22 | the preamble test holds of every region |
| BoundaryMultipart.NextStep | src/parseMultipartHttp.js:18-43 | the parser waits exactly when no part can be completed. Skipping the preamble or taking a non-empty part leaves a strictly shorter suffix of the buffer |
| BoundaryMultipart.ParseMultipartHttp | src/parseMultipartHttp.js:17-59 | the previous parts are a prefix of the result's parts. The new buffer is a suffix of the buffer from which no part can be completed, or empty. A passed preamble stays passed |
| BoundaryMultipart.NeedsMoreIff | src/parseMultipartHttp.js:31-42 | the buffer comes back unchanged exactly when no part can be completed, and then the parts and the preamble flag are unchanged too |
| BoundaryMultipart.PreambleDiscarded | src/parseMultipartHttp.js:20-29 | in preamble mode everything up to the first delimiter is discarded and the flag turns off; with nothing after it the buffer is empty |
| BoundaryMultipart.PartThenRest | src/parseMultipartHttp.js:45-58 | a part followed by a delimiter adds its payload, and parsing goes on after the delimiter; when the buffer ends right after the delimiter, the new buffer is empty |
| BoundaryMultipart.LastPart | src/parseMultipartHttp.js:31-58 | the last part, ended by the closing delimiter, adds its payload; an epilogue that completes nothing stays in the buffer |
| BoundaryMultipart.FramedParts | src/parseMultipartHttp.js:17-59 | a run of complete parts, each followed by the delimiter, adds their payloads in order, including a run that ends the buffer, which leaves an empty new buffer |
| BoundaryMultipart.CompleteIff | src/parseMultipartHttp.js:20 | a run of parts is complete exactly when every part is non-empty and is ended by the first delimiter after it |
| BoundaryMultipart.StreamRoundTrip | src/parseMultipartHttp.js:17-59 | a whole stream, with preamble, parts, last part, closing delimiter and epilogue, yields every payload in order and leaves only the epilogue |
| BoundaryMultipart.PartBody | src/parseMultipartHttp.js:45-48 | a part's payload text; BoundaryMultipart.PartBodyOf and BoundaryMultipart.PartBodyWithoutHeaders are its partners |
| BoundaryMultipart.PartBodyOf | src/parseMultipartHttp.js:45-48 | a part's payload text is what follows its headers' blank line |
| BoundaryMultipart.PartBodyWithoutHeaders | src/parseMultipartHttp.js:45-48 | a part without a blank line is all payload text |
| Resolver.Step | src/PatchResolver.js:45-60 | the first part ever becomes the response as it is. A later part succeeds exactly when its patch does, and then becomes the patched response. Each success counts the part and reports the response once |
| Resolver.Feed | src/PatchResolver.js:44-61 | the parts of a chunk are handled in order. Each handled part adds exactly one reported response, and earlier responses stay. Without an exception every part is handled |
| Resolver.FeedAppend | src/PatchResolver.js:44-61 | handling parts in two runs is handling them in one, unless the first run throws |
| Resolver.FeedErrorSticks | src/PatchResolver.js:49-51 | after an exception, later parts are not handled |
| Resolver.FeedOkIff | src/PatchResolver.js:44-61 | a chunk is handled without an exception exactly when every part is accepted in the session the earlier parts leave |
| Resolver.FeedStopsAt | src/PatchResolver.js:49-51 | the part that throws leaves the state where the earlier parts left it, and its exception is the one thrown |
| Resolver.FeedFromFresh | src/PatchResolver.js:44-61 | from a new resolver, one response is reported per part. The first is the first part, and each later one is the previous response patched by its part |
| Resolver.Handle | src/PatchResolver.js:36-63 | text that does not parse yet is buffered with nothing reported. Otherwise the buffer is emptied and the parts are fed to the session |
| Resolver.SplitChunk | src/PatchResolver.js:37-41 | a chunk split where the text does not parse yet is handled as if it arrived whole |
| Resolver.IncompleteReportsNothing | src/PatchResolver.js:38-41 | such a chunk changes neither the response nor the count, and throws nothing |
| Resolver.PatchResolver.constructor | src/PatchResolver.js:29-34 | a new resolver has an empty buffer, a `null` response, no parts counted and nothing reported |
| Resolver.PatchResolver.HandleChunk | src/PatchResolver.js:36-63 | the method's new fields and its thrown exception are exactly what `Handle` gives on the old fields |
| ContentType.SplitPieceFree | src/getBoundary.js:5 | no piece of a split on `;` holds a `;` |
| ContentType.ParamValue | src/getBoundary.js:7-8 | the value of a parameter with a given name; ContentType.ParamValueShape and ContentType.ParamValueOf are its two directions |
| ContentType.BoundaryValue | src/getBoundary.js:7-8 | the value of a `boundary` parameter, name and value separated by `=` |
| ContentType.BoundaryOf | src/getBoundary.js:5-15 | the unquoted value of the first `boundary` parameter, or `-`; ContentType.GetBoundary computes it, and ContentType.BoundaryRoundTrip is its round trip |
| ContentType.ParamValueShape | src/getBoundary.js:7-8 | an accepted value is non-empty and free of `=`. The trimmed parameter starts with the name, `=` and the value, followed by its end or by `=` |
| ContentType.ParamValueWithout | src/getBoundary.js:7 | a character the parameter does not hold is not in its value |
| ContentType.ParamValueOf | src/getBoundary.js:7-8 | a trimmed `name=value` parameter is read back with its value |
| ContentType.Unquote | src/getBoundary.js:9-12 | a value in double quotes loses them, the lone `"` gives the empty string, and any other value is unchanged |
| ContentType.UnquoteQuoted | src/getBoundary.js:9-11 | quoting and then unquoting gives the value back |
| ContentType.FirstMatch | src/getBoundary.js:6-14 | the search stops at the first accepted parameter, and every parameter before it is rejected |
| ContentType.GetBoundary | src/getBoundary.js:4-16 | the loop returns the unquoted value of the first `boundary` parameter, or `-` |
| ContentType.NoParameters | src/getBoundary.js:4-15 | a value without `;` and `=`, such as the default empty string, gives `-` |
| ContentType.BoundaryOfFree | src/getBoundary.js:5-15 | the boundary never holds `;` or `=` |
| ContentType.BoundaryOfSecond | src/getBoundary.js:5-13 | after a media type that is not a boundary parameter, the second parameter's boundary is the result |
| ContentType.BoundaryRoundTrip | src/getBoundary.js:4-16 | `type; boundary=v` and `type; boundary="v"` both give `v` back |

## Left out

- The transports `src/fetch.js`, `src/xhr.js` and `src/getTransport.js` are network I/O and browser APIs whose only logic is calling `handleChunk`, so they are not part of this model. Neither is `typings.d.ts`, which holds types only.
- `JSON.parse` is the parameter `parse`. Its own exceptions, on text that is not JSON, are not modelled.
- `onResponse` is not called as a foreign function. Each call is recorded instead, as an element appended to `responses`.
- The `JSON.stringify` text of the invalid-patch-format message is left out. The error carries the part itself.
- JavaScript numbers are integers here. Floating point, `NaN` values in the data and the float rounding of `parseInt` are left out. Js.ToKey prints every integer in full decimal, while JavaScript prints a number of magnitude 10^21 or more in exponential notation (`1e+21`), so such a path element gives a different key.
- Text.ToLower: maps only the letters A to Z. Other characters that JavaScript lowers are kept. This cannot change whether a line contains `content-length:`, because JavaScript maps no non-ASCII character into that ASCII text.
- Strings are sequences of Unicode characters, while JavaScript counts UTF-16 code units. Text outside the Basic Multilingual Plane therefore differs in three places. `Content-Length` checks are not modelled for it. `Js.Spread` of a string gives one key per character where JavaScript gives one per code unit. `Js.Get` of a string's `length` counts characters.
- Property reads cover own properties, plus `length` of arrays and strings. Inherited properties such as `constructor` are left out, and so is the key order of objects.
- The default argument `contentType = ''` of `getBoundary` is not a separate case, because an absent argument is the empty string.
- The default arguments `previousParts = []` and `isPreamble = true` of `parseMultipartHttp` are always passed explicitly.
