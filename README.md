# drakov request matching, modelled in Dafny

drakov serves mock responses for an API Blueprint. To pick a response, it must
decide whether an observed HTTP request matches a request declared in the
blueprint (the "spec request"). `lib/content.js` makes that decision with
`exports.matches`, and this project models it. The matching has two stages:

1. **Media types.** Both sides' media types are resolved, and they must be
   identical. Two absent media types also count as identical.
   - The observed request looks up the exact key `content-type` in its header
     map.
   - The spec request scans its ordered header list. It uses the first header
     whose name contains `content-type` in any case.
   - The media type is the value up to its first `;`, lower-cased. This comes
     from the pattern `/^\s*([^;]+)/` followed by `toLowerCase`.
2. **Bodies.** An absent spec request matches an observed request whose body is
   empty. Otherwise the rule depends on the media type:
   - when it contains `json`, both bodies are parsed and compared structurally;
   - otherwise the raw texts must be identical.

The JavaScript code can throw in three places, and the model returns each one
as a `Result` error (`Content.Exception`):

- `MalformedContentType`: a content-type value that is empty or starts with
  `;`, so the pattern finds no match.
- `InvalidJson`: a body that the JSON parser rejects.
- `MissingSpecRequest`: a body read from a spec request that is absent.

Files:

- `wrappers.dfy`: the `Option` and `Result` types.
- `text.dfy`: ASCII lower-casing and substring search. The search is proved
  equivalent to "occurs at some index".
- `json.dfy`: parsed JSON values, with objects stored as maps, and
  `DeepEqual`, the structural comparison that `lodash.isEqual` performs. It is
  proved to coincide with equality of values.
- `content.dfy`: `lib/content.js` itself.
  - The regular-expression match is modelled step by step, including how the
    greedy `\s*` gives characters back. It is proved to mean "the prefix up to
    the first `;`".
  - The header scan of `getMediaTypeFromSpecReq` is a method with a loop,
    proved equal to the recursive first-match function `SpecMediaType`.
  - The rest consists of functions (`MediaType`, `HttpMediaType`,
    `IsBodyEqual`, `Matches`) and lemmas about them.

The JSON parser is a parameter `parse: string -> Option<Json>`, where `None`
means the parser throws. An absent body is parsed as `JSON.parse(undefined)`
would be, which means it is rejected.

`lib/content.js` does none of the following, and the model does not either:

- checking header values other than content-type;
- treating all `multipart/form-data` requests as compatible, or not comparing
  their bodies;
- re-encoding form-urlencoded bodies;
- validating against a JSON schema;
- falling back to raw-text comparison when a body is not valid JSON. In the
  code, such a body makes the call throw.

Parameters after the first `;` are stripped from a media type, but the media
type is not trimmed. Leading and trailing spaces before the `;` are kept, in
the code and in the model.

## Model

| member | source | states |
|---|---|---|
| Content.LeadingSpaces | lib/content.js:3 | the greedy `\s*` takes exactly the maximal run of JavaScript whitespace at the start |
| Content.RunEnd | lib/content.js:3 | the greedy `[^;]+` started at `i` stops at the first `;` at or after `i`, or at the end |
| Content.MatchEndSpec | lib/content.js:3 | the pattern, with backtracking of `\s*`, matches exactly when the value is non-empty and does not start with `;`; the match then ends at the first `;` |
| Content.MediaType | lib/content.js:5-7 | fails with MalformedContentType exactly when the value is empty or starts with `;`; otherwise the result is the lower-cased prefix that stops at the first `;` or the end, is non-empty and has no `;` |
| Content.MediaTypeIdempotent | lib/content.js:5-7 | applying getMediaType to its own result gives that result again |
| Content.MediaTypeIgnoresCase | lib/content.js:6 | two values that agree up to letter case give the same media type, or fail alike |
| Content.MediaTypeUpTo | lib/content.js:3-6 | a value whose first `;` is at `n > 0` (or whose length is `n`) has media type `Lower(value[..n])` |
| Content.MediaTypeDropsParameters | lib/content.js:3-6 | `m;params` and `m` both give `Lower(m)` for any `;`-free non-empty `m`, with spaces inside `m` kept |
| Content.MediaTypeOfPlain | lib/content.js:5-7 | a non-empty value without `;` and without capitals is its own media type |
| Content.AsPresent | lib/content.js:13 | a media type found in a header is never the "no media type" result |
| Content.HeadersMediaType | lib/content.js:11-17 | the only exception the header scan can raise is MalformedContentType |
| Content.GetMediaTypeFromSpecReq | lib/content.js:9-18 | the index loop with its early return computes exactly the first-match media type `SpecMediaType` |
| Content.HeadersMediaTypeFirstMatch | lib/content.js:11-15 | the scan returns the media type of the first header whose name passes the test; headers after it are not consulted |
| Content.HeadersMediaTypeNone | lib/content.js:11-17 | the scan returns null exactly when no header name passes the test |
| Content.SpecMediaTypeNone | lib/content.js:9-18 | null exactly when the spec request is absent, its header list is absent, or no header name contains "content-type" in any case |
| Content.SpecMediaTypeFirstMatch | lib/content.js:10-14 | otherwise the media type of the first header whose name passes the test |
| Content.HeadersMediaTypeInsert | lib/content.js:11-15 | inserting a header whose name fails the test at any position leaves the scan's result unchanged |
| Content.NamesContentTypeInfix | lib/content.js:12 | every name containing "content-type" in any case passes the header test, whatever precedes or follows it |
| Content.NamesContentType | lib/content.js:12 | the spec-side header-name test holds exactly when "content-type" occurs somewhere in the ASCII-lower-cased name (a substring test, not name equality) |
| Content.SpecMediaType | lib/content.js:9-18 | the first-match media type of a spec request; can only fail with MalformedContentType; its null cases and its value are stated by SpecMediaTypeNone and SpecMediaTypeFirstMatch |
| Content.SpecApplicationJson | lib/content.js:9-18 | a spec request whose only header is "Content-Type: application/json" resolves to "application/json" |
| Content.HttpMediaType | lib/content.js:20-25 | null exactly when the exact key "content-type" is absent; fails exactly when that value is malformed; otherwise the media type of that value |
| Content.IsJsonMediaType | lib/content.js:32 | `/json/i.test(contentType)` holds exactly when the media type is present and "json" occurs in it in any ASCII case; a null media type never passes |
| Content.IsEmptyBody | lib/content.js:28 | `!httpReq.body`: the body is absent or the empty string; its use is stated by IsBodyEqualWithoutSpec and MatchesWithoutSpec |
| Content.ParseBody | lib/content.js:33 | an absent body is rejected by the parser, as `JSON.parse(undefined)` throws; a present one is handed to the parser |
| Content.IsBodyEqual | lib/content.js:27-37 | can only throw InvalidJson or MissingSpecRequest; MissingSpecRequest only when the spec request is absent and the observed body is not empty; InvalidJson only under a media type containing "json"; its verdicts are stated by the IsBodyEqual* lemmas below |
| Content.IsBodyEqualWithoutSpec | lib/content.js:28-35 | with no spec request, an absent or empty observed body matches whatever the media type, and any other body makes the call throw |
| Content.IsBodyEqualText | lib/content.js:32-36 | for a media type without "json" (null included), the verdict is exact equality of the raw bodies |
| Content.IsBodyEqualJson | lib/content.js:32-33 | for a media type with "json", the verdict is equality of the parsed values |
| Content.IsBodyEqualJsonRejects | lib/content.js:33 | for a media type with "json", a body the parser rejects makes the call throw; identical texts are not compared as a fallback |
| Content.IsBodyEqualReflexive | lib/content.js:32-36 | a body compared with itself matches whenever it parses |
| Content.IsBodyEqualSymmetric | lib/content.js:32-36 | swapping the observed and the spec body does not change the verdict, the exception included |
| Content.Matches | lib/content.js:39-55 | true only when both media types resolve and are equal; throws MalformedContentType exactly when either side's content-type value is malformed; its verdicts are stated by the Matches* lemmas below |
| Content.MatchesMediaTypeMismatch | lib/content.js:40-53 | differing resolved media types give false, whatever the bodies |
| Content.MatchesSameMediaType | lib/content.js:40-48 | equal resolved media types, two nulls included, give exactly the body verdict |
| Content.MatchesMalformedContentType | lib/content.js:40-41 | a malformed content-type value on either side makes the call throw MalformedContentType |
| Content.MatchesWithoutSpec | lib/content.js:39-55 | with no spec request: false if the observed request has a content-type, true if it also has no body, and a thrown exception otherwise |
| Content.MatchesTextBodies | lib/content.js:42-48 | under a common media type without "json" (multipart included), the verdict is equality of the raw bodies |
| Content.MatchesJsonBodies | lib/content.js:42-48 | under a common JSON media type, the verdict is equality of the parsed bodies |
| Content.MatchesIgnoresOtherHttpHeaders | lib/content.js:20-25 | setting any observed header other than "content-type" does not change the verdict |
| Content.MatchesIgnoresOtherSpecHeaders | lib/content.js:9-18 | inserting a spec header whose name does not contain "content-type" does not change the verdict |
| Content.MatchesJsonMemberOrder | lib/content.js:33 | JSON bodies whose objects list the same members in a different order match |
| Content.ApplicationJsonRequests | lib/content.js:20-25 | a request with content-type application/json and a spec request with header "Content-Type: application/json" resolve to the same JSON media type |
| Content.MatchesContentTypeLookalikeFirst | lib/content.js:12 | a header such as "X-Content-Type-Options" listed first supplies the spec's media type, so a request of another media type never matches |
| Json.DeepEqual | lib/content.js:33 | the structural comparison `lodash.isEqual` performs on parsed JSON: it holds only for equal values; the converse is DeepEqualIsEquality |
| Json.DeepEqualIsEquality | lib/content.js:33 | the structural comparison holds exactly when the parsed values are equal, so it ignores member order |
| Text.ContainsIff | lib/content.js:12 | the substring scan holds exactly when the pattern occurs at some index |
| Text.LowerIdempotent | lib/content.js:6 | lower-casing twice is lower-casing once |

## Left out

- `console.warn` at lib/content.js:46 and lib/content.js:51: logging only; the returned verdict does not depend on it.
- The JSON parser is a parameter, and the model does not describe its grammar. Duplicate member names, number precision and `-0` are therefore the parser's concern.
- `lodash.isEqual` is modelled only on values that `JSON.parse` can produce. Its handling of other JavaScript objects does not arise here.
- MediaType: lower-cases ASCII letters only. Full Unicode `toLowerCase` is not modelled, so for non-ASCII capitals the model's media type is not lower-cased as JavaScript would do it.
- The case-insensitive tests `/content\-type/i` and `/json/i` are modelled as ASCII case folding, which is how a non-Unicode JavaScript pattern folds these ASCII letters.
- Observed requests are assumed to have a header map and string header values. The code would throw on an observed request without `headers`, and the model cannot express that request.
- Spec headers are assumed to have string names and values. In the code, a missing name is tested as the text "undefined", and a missing value makes getMediaType throw; the model cannot express either case.
- Bodies are strings or absent. Non-string bodies, which JavaScript would coerce, are not modelled.
- The `in` operator at lib/content.js:21 also sees inherited properties. Only the map's own keys are modelled.
