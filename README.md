# SharePoint request tagging, modelled in Dafny

PnPjs ships `SPTagging()`, a behaviour for SharePoint requests. The behaviour is a pipe:
applied to a request object (a `Queryable2`), it registers one observer on the request's
`pre` moment and returns the same object. Each time the request is dispatched, that
observer works out a short *client tag* from the request URL's path. It stores the tag in
the `X-ClientService-ClientTag` header of the request-init and passes `url`, `init` and
`result` on unchanged.

The tag is built like this:

- start from `PnPCoreJS:3.0.0-exp:`;
- take the text after the first `_api/` of the pathname (`indexOf(...) + 5`, which is
  index 4 when there is no marker);
- split that text on `/`, keep only the first character of every segment but the last
  (`value[0]`, which is `undefined` for an empty segment), and keep the last segment whole;
- join the pieces with `.` (`undefined` renders as the empty string);
- cut the result to 32 characters.

The project has three modules:

- `JsStrings` (`js_strings.dfy`) models the JavaScript built-ins this code relies on.
  Each is constrained by a contract or a lemma: `indexOf` returns the first occurrence
  or -1, `split` and `join` undo each other, `join` puts in one separator between each
  pair of neighbours and ends with its last element, and `value[i]` is `undefined` past
  the end. The one-argument `substr` has only a small contract of its own; its use at
  line 18 of `packages/sp/behaviors/telemetry.ts` is pinned down through
  `ClientTags.ApiRemainder`.
- `ClientTags` (`client_tags.dfy`) models the tag derivation as pure functions. Lemmas
  prove the length bound, the fixed prefix, the exact truncation rule, the shape of each
  segment, that only the text after the marker matters, and the index-4 case. Worked
  tags for three concrete paths follow from general lemmas on two-segment remainders.
- `Telemetry` (`telemetry.dfy`) models the stateful part. `Queryable` is a class whose
  `pre` field is the sequence of registered observers. `RequestInit` is a class whose
  `headers` field is a map. `SPTagging` and `ObserveClientTag` are methods that update
  these fields in place, and each method's contract states the complete new state.
  `TaggingScenario` is a usage example of these contracts with no counterpart in the
  library.

Inputs the model takes as parameters: the URL's `pathname` is passed to the observer
next to `url`, because `new URL(url)` is WHATWG URL parsing and is not modelled. `result`
is a value of any type that the observer never looks at.

## Model

`ClientTags.TagPath`, the short form of a REST path, only computes. Its properties are
stated by `SegmentShapes`, `CollapsedPieceShape`, `SeparatorCount` and `TwoSegmentPath`.

| member | source | states |
|---|---|---|
| `JsStrings.IndexOf` | packages/sp/behaviors/telemetry.ts:18 | `indexOf` is -1 exactly when the marker occurs nowhere; otherwise it is the index of the first occurrence, and it is the only such index |
| `JsStrings.SubstrFrom` | packages/sp/behaviors/telemetry.ts:18 | `substr(start)` returns everything from `start` on: the text before `start` followed by the result is the whole string again, and from the end on the result is empty |
| `JsStrings.Substr` | packages/sp/behaviors/telemetry.ts:21 | `substr(start, length)` returns at most `length` characters: as many of the characters from `start` on as there are, up to `length`, or nothing once `start` is past the end |
| `JsStrings.CharAt` | packages/sp/behaviors/telemetry.ts:18 | `value[i]` is `undefined` exactly when `i` is at or past the end; otherwise it is the one-character string at `i` |
| `JsStrings.Render` | packages/sp/behaviors/telemetry.ts:18 | `join` renders an `undefined` element as the empty string, and a string element as itself |
| `JsStrings.Join` | packages/sp/behaviors/telemetry.ts:18 | joining no elements gives the empty string; a non-empty join starts with its first element, rendered; a join of n elements is at least n - 1 characters long |
| `JsStrings.JoinEndsWithLast` | packages/sp/behaviors/telemetry.ts:18 | a join ends with its last element, rendered |
| `JsStrings.Split` | packages/sp/behaviors/telemetry.ts:18 | `split("/")` gives exactly one more part than the string has `/`, and no part contains `/` |
| `JsStrings.SplitThenJoin` | packages/sp/behaviors/telemetry.ts:18 | joining the parts of a split with the separator gives back the original string |
| `JsStrings.JoinThenSplit` | packages/sp/behaviors/telemetry.ts:18 | splitting the join of a non-empty array of separator-free parts gives back exactly those parts |
| `JsStrings.SplitKeepsAbsent` | packages/sp/behaviors/telemetry.ts:18 | a character that the string does not contain appears in none of its split parts |
| `JsStrings.JoinSeparatorCount` | packages/sp/behaviors/telemetry.ts:18 | when no element contains the separator, the join has exactly one separator fewer than it has elements |
| `ClientTags.ApiRemainder` | packages/sp/behaviors/telemetry.ts:17-18 | the remainder is the text after the first `_api/`; when there is no `_api/`, it is the text from index 4 on (empty for a pathname shorter than 4) |
| `ClientTags.Collapse` | packages/sp/behaviors/telemetry.ts:18 | the `map` keeps one piece per segment; every piece but the last is `value[0]` of its segment (`undefined` when the segment is empty), and the last piece is the whole last segment |
| `ClientTags.ClientTag` | packages/sp/behaviors/telemetry.ts:13-22 | the tag for a pathname has length at most 32, starts with `PnPCoreJS:3.0.0-exp:`, and is a prefix of that text followed by the short path of the remainder |
| `ClientTags.TagFromRemainder` | packages/sp/behaviors/telemetry.ts:13-22 | the tag has length at most 32 and at least 20; it starts with `PnPCoreJS:3.0.0-exp:`; after that prefix it holds exactly the first `min(12, length)` characters of the short path |
| `ClientTags.TruncationCases` | packages/sp/behaviors/telemetry.ts:18-22 | when prefix plus short path fits in 32 characters the tag is exactly that text; otherwise it is the first 32 characters of it |
| `ClientTags.SegmentShapes` | packages/sp/behaviors/telemetry.ts:18 | the remainder splits back into itself and gives one piece per `/` plus one; a non-last piece renders to at most one character, to nothing exactly when its segment is empty, and otherwise to the segment's first character; the short path ends with the whole last segment |
| `ClientTags.CollapsedPieceShape` | packages/sp/behaviors/telemetry.ts:18 | one piece before the last renders to at most one character: nothing for an empty segment, otherwise the segment's first character |
| `ClientTags.SeparatorCount` | packages/sp/behaviors/telemetry.ts:18 | for a remainder with no `.`, the short path holds exactly as many `.` as the remainder holds `/` |
| `ClientTags.OnlyTextAfterMarkerMatters` | packages/sp/behaviors/telemetry.ts:17-18 | given a head that does not contain `_api/`, the pathname head + `_api/` + rest has remainder `rest`, and its tag is the tag of `rest` alone, whatever the head was |
| `ClientTags.SameRemainderSameTag` | packages/sp/behaviors/telemetry.ts:17-18 | two pathnames that agree after their first `_api/` get the same tag |
| `ClientTags.NoMarkerStartsAtFour` | packages/sp/behaviors/telemetry.ts:18 | a pathname without `_api/` is tagged from its text from index 4 on (-1 + 5) |
| `ClientTags.NoUnderscoreNoMarker` | packages/sp/behaviors/telemetry.ts:18 | a text without `_` contains no `_api/` |
| `ClientTags.TwoSegmentPath` | packages/sp/behaviors/telemetry.ts:18 | a remainder `a/b` shortens to `a`'s first character (nothing for an empty `a`), a `.`, then `b` |
| `ClientTags.ShortPathKept` | packages/sp/behaviors/telemetry.ts:20-22 | a short path of at most 12 characters follows the prefix uncut |
| `ClientTags.LongPathCut` | packages/sp/behaviors/telemetry.ts:20-22 | a short path longer than 12 characters keeps only its first 12 after the prefix |
| `ClientTags.EmptySegmentRemainder` | packages/sp/behaviors/telemetry.ts:18-22 | a remainder `/b` with a short `b` is tagged prefix, `.`, `b`: the empty first segment's `undefined` renders as nothing |
| `ClientTags.ShortTwoSegmentRemainder` | packages/sp/behaviors/telemetry.ts:18-22 | a remainder `a/b` with a non-empty `a` and a short `b` is tagged prefix, first character of `a`, `.`, `b` |
| `ClientTags.EmptyFirstSegment` | packages/sp/behaviors/telemetry.ts:16-22 | a pathname head + `_api//` + b, with no marker in head, is tagged prefix, `.`, `b` |
| `ClientTags.NoMarkerTwoSegments` | packages/sp/behaviors/telemetry.ts:16-22 | a pathname without `_` made of four characters, then `a/b`, is tagged from `a/b` alone: prefix, first character of `a`, `.`, `b` |
| `ClientTags.ExampleEmptySegment` | packages/sp/behaviors/telemetry.ts:18 | `/_api//web` (given as `/`, the marker, `/`, `web`) is tagged `PnPCoreJS:3.0.0-exp:.web`: the empty segment's `undefined` renders as nothing |
| `ClientTags.ExampleNoMarker` | packages/sp/behaviors/telemetry.ts:18 | `/sites/dev` (given as `/sit`, `es`, `/`, `dev`) is tagged `PnPCoreJS:3.0.0-exp:e.dev`: with no marker the cut falls inside the first segment |
| `ClientTags.ExampleTruncated` | packages/sp/behaviors/telemetry.ts:18-22 | the remainder `web/currentuser` (given as `web`, `/`, `currentuser`) gives `PnPCoreJS:3.0.0-exp:w.currentuse`, cut at 32 characters |
| `Telemetry.RequestInit.constructor` | packages/sp/behaviors/telemetry.ts:8 | a request-init holds exactly the header dictionary it was made with |
| `Telemetry.Queryable.constructor` | packages/sp/behaviors/telemetry.ts:6 | a new request object has no observers registered on `pre` |
| `Telemetry.Tagged` | packages/sp/behaviors/telemetry.ts:24 | after tagging, the header keys are the old keys plus the tag header; the tag header holds the client tag for the path; every other header keeps its value |
| `Telemetry.TaggedIdempotent` | packages/sp/behaviors/telemetry.ts:24 | tagging a second time for the same path changes nothing |
| `Telemetry.TaggedForgetsOldTag` | packages/sp/behaviors/telemetry.ts:24 | two header maps that differ only in the tag header are equal after tagging: any earlier tag is overwritten |
| `Telemetry.ObserveClientTag` | packages/sp/behaviors/telemetry.ts:8-27 | the observer returns the same `url`, `init` and `result` it received, and leaves `init.headers` equal to the old headers tagged for the path |
| `Telemetry.Queryable.OnPre` | packages/sp/behaviors/telemetry.ts:8 | registering on `pre` appends the observer and keeps the earlier observers in place and in order |
| `Telemetry.SPTagging` | packages/sp/behaviors/telemetry.ts:4-30 | applying the pipe returns the identical instance, and its `pre` list becomes the old list plus exactly one tagging observer at the end |

## Left out

- `new URL(url)`: WHATWG URL parsing and percent-encoding are not modelled. The observer takes the resulting `pathname` as a parameter, and nothing ties it to `url`. A `url` that does not parse as an absolute URL makes line 16 throw, so the observer's promise rejects; this error path is not modelled, and `Telemetry.ObserveClientTag` cannot fail.
- A Dafny `char` is a Unicode scalar value. For the percent-encoded ASCII pathname that `new URL` produces, this matches JavaScript's UTF-16 code units. Beyond the Basic Multilingual Plane, `length` and `value[0]` would differ.
- The first assignment of `clientTag` with the `$$Version$$` placeholder (line 10) is dead, because line 13 overwrites it at once. The model starts from the value line 13 gives.
- The observer runs as an `async` function and the pipeline awaits it. Promises are not modelled; the method returns its three results directly.
- `SPTagging()` returns a closure that is later applied to an instance. The model merges the factory call and the closure's application into the one method `Telemetry.SPTagging`, because the factory holds no state of its own.
- JsStrings.Substr: negative arguments, which JavaScript counts from the end of the string, are not modelled. Line 21 passes 0 and 32.
- JsStrings.SubstrFrom: a negative start is not modelled either (its `start` is a `nat`). Line 18 passes `indexOf(...) + 5`, which is at least 4.
- The timeline engine (`TimelinePipe`, `Queryable2`, `instance.on`) comes from `@pnp/core` and `@pnp/queryable`, which are not part of this model. Registering on `pre` is modelled only as appending to a sequence. Dispatch, other moments, detach handles and the `this` binding of the observer (its unused `TagSymbol` field) are not modelled.
- `init.headers` is modelled as a plain string-keyed dictionary that is always present. JavaScript would throw a `TypeError` on a missing `headers` object. With a `Headers` instance, the assignment would not set a header at all. Neither form is modelled, because the request-init type is defined in code outside this model. In JavaScript `init.headers` is an object reference, so line 24 would also tag any other init that shares the same headers object; the value-typed `headers` field cannot show this aliasing.
- The other files of the repository are not part of this model: the Graph integration tests, the `drives` lazy getter on `GraphFI.prototype`, and the module resolver that patches Node's `Module._resolveFilename`.
