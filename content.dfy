/** The request-matching predicate of lib/content.js: it decides whether an
    observed HTTP request matches a request of the API specification by
    comparing their media types and then their bodies. */
module Content {
  import opened Wrappers
  import opened Text
  import opened Json

  /** The exceptions the source can throw while matching. */
  datatype Exception =
    | MalformedContentType  // the media-type pattern found no match (lib/content.js:6)
    | InvalidJson           // JSON.parse rejected a body (lib/content.js:33)
    | MissingSpecRequest    // a body was read from an absent spec request (lib/content.js:33, 35)

  /** One header of a spec request, with its name as authored. */
  datatype Header = Header(name: string, value: string)

  /** A request of the API specification: an ordered header list and a raw
      body, either of which may be absent. */
  datatype SpecRequest = SpecRequest(headers: Option<seq<Header>>, body: Option<string>)

  /** An observed request: headers keyed by lower-case name and a raw body. */
  datatype HttpRequest = HttpRequest(headers: map<string, string>, body: Option<string>)

  /** The external JSON parser: None when it throws. */
  type Parser = string -> Option<Json>

  // ---------------------------------------------------------------------
  // getMediaType: the pattern /^\s*([^;]+)/i, element [0] of its match,
  // lower-cased.
  // ---------------------------------------------------------------------

  /** The characters JavaScript's `\s` class matches. */
  predicate IsSpace(c: char) {
    || c == '\t' || c == '\n' || c == '\U{000B}' || c == '\U{000C}' || c == '\r'
    || c == ' ' || c == '\U{00A0}' || c == '\U{1680}'
    || ('\U{2000}' <= c <= '\U{200A}')
    || c == '\U{2028}' || c == '\U{2029}' || c == '\U{202F}' || c == '\U{205F}'
    || c == '\U{3000}' || c == '\U{FEFF}'
  }

  /** How many characters the greedy `\s*` takes at the start of `s`. */
  function LeadingSpaces(s: string): (n: nat)
    ensures n <= |s|
    ensures forall i :: 0 <= i < n ==> IsSpace(s[i])
    ensures n < |s| ==> !IsSpace(s[n])
  {
    if s != [] && IsSpace(s[0]) then 1 + LeadingSpaces(s[1..]) else 0
  }

  /** Where the greedy `[^;]+` started at `i` stops: the first `;` at or after
      `i`, or the end of `s`. */
  function RunEnd(s: string, i: nat): (e: nat)
    requires i <= |s|
    ensures i <= e <= |s|
    ensures forall k :: i <= k < e ==> s[k] != ';'
    ensures e < |s| ==> s[e] == ';'
    decreases |s| - i
  {
    if i == |s| || s[i] == ';' then i else RunEnd(s, i + 1)
  }

  /** The regular-expression engine with `\s*` having taken `w` characters:
      `[^;]+` needs at least one character there; if it has none, `\s*`
      gives one character back and the engine tries again. The result is
      the end of the whole match, or None when there is no match. */
  function TryAt(s: string, w: nat): Option<nat>
    requires w <= |s|
  {
    if w < |s| && s[w] != ';' then Some(RunEnd(s, w))
    else if w == 0 then None
    else TryAt(s, w - 1)
  }

  /** The end of the match of /^\s*([^;]+)/ on `s`, if it matches. */
  function MatchEnd(s: string): Option<nat> {
    TryAt(s, LeadingSpaces(s))
  }

  lemma RunEndFrom(s: string, j: nat, i: nat)
    requires j <= i <= |s|
    requires forall k :: j <= k < i ==> s[k] != ';'
    ensures RunEnd(s, j) == RunEnd(s, i)
  {
  }

  /** The pattern matches exactly when `s` is non-empty and does not start
      with `;`, and the match then runs up to the first `;`. */
  lemma MatchEndSpec(s: string)
    ensures MatchEnd(s) == if s == [] || s[0] == ';' then None else Some(RunEnd(s, 0))
  {
    var w := LeadingSpaces(s);
    if w < |s| && s[w] != ';' {
      RunEndFrom(s, 0, w);
    } else if w > 0 {
      assert IsSpace(s[w - 1]) && IsSpace(s[0]);
      assert TryAt(s, w) == TryAt(s, w - 1) == Some(RunEnd(s, w - 1));
      RunEndFrom(s, 0, w - 1);
    }
  }

  /** getMediaType: the media type of a content-type value. */
  function MediaType(contentType: string): (r: Result<string, Exception>)
    ensures r.Err? <==> contentType == [] || contentType[0] == ';'
    ensures r.Err? ==> r.error == MalformedContentType
    ensures r.Ok? ==> |r.value| <= |contentType| && r.value == Lower(contentType[..|r.value|])
    ensures r.Ok? ==> |r.value| == |contentType| || contentType[|r.value|] == ';'
    ensures r.Ok? ==> |r.value| > 0 && forall i :: 0 <= i < |r.value| ==> r.value[i] != ';'
  {
    MatchEndSpec(contentType);
    match MatchEnd(contentType)
    case None => Err(MalformedContentType)
    case Some(e) =>
      Ok(Lower(contentType[..e]))
  }

  /** The media type is a fixed point: it has no `;` and no capital letter. */
  lemma {:induction false} MediaTypeIdempotent(contentType: string)
    requires MediaType(contentType).Ok?
    ensures MediaType(MediaType(contentType).value) == MediaType(contentType)
  {
    var m := MediaType(contentType).value;
    var r := MediaType(m);
    LowerCharFixed(m[0], ';');
    assert r.Ok?;
    var n := |r.value|;
    assert m[..n] == m;
    LowerIdempotent(contentType[..|m|]);
  }

  /** The media type does not depend on the case of the value. */
  lemma {:induction false} MediaTypeIgnoresCase(s: string, t: string)
    requires Lower(s) == Lower(t)
    ensures MediaType(s) == MediaType(t)
  {
    assert |s| == |t|;
    forall i | 0 <= i < |s| ensures s[i] == ';' <==> t[i] == ';' {
      assert Lower(s)[i] == Lower(t)[i];
      LowerCharFixed(s[i], ';');
      LowerCharFixed(t[i], ';');
    }
    if s != [] && s[0] != ';' {
      var n := RunEnd(s, 0);
      MediaTypeUpTo(s, n);
      MediaTypeUpTo(t, n);
      LowerPrefix(s, n);
      LowerPrefix(t, n);
    }
  }

  /** The media type of a value whose first `;` (or its end) is at `n`. */
  lemma MediaTypeUpTo(s: string, n: nat)
    requires 0 < n <= |s|
    requires forall i :: 0 <= i < n ==> s[i] != ';'
    requires n == |s| || s[n] == ';'
    ensures MediaType(s) == Ok(Lower(s[..n]))
  {
  }

  /** Parameters after the first `;` are dropped, and whatever precedes it,
      spaces included, is kept apart from case. */
  lemma MediaTypeDropsParameters(mediaType: string, parameters: string)
    requires mediaType != []
    requires forall i :: 0 <= i < |mediaType| ==> mediaType[i] != ';'
    ensures MediaType(mediaType + ";" + parameters) == Ok(Lower(mediaType))
    ensures MediaType(mediaType) == Ok(Lower(mediaType))
  {
    var s := mediaType + ";" + parameters;
    MediaTypeUpTo(s, |mediaType|);
    assert s[..|mediaType|] == mediaType;
    MediaTypeUpTo(mediaType, |mediaType|);
    assert mediaType[..|mediaType|] == mediaType;
  }

  // ---------------------------------------------------------------------
  // getMediaTypeFromSpecReq and getMediaTypeFromHttpReq
  // ---------------------------------------------------------------------

  /** The spec side's header-name test `/content\-type/i`: a case-insensitive
      substring test, so "X-Content-Type-Options" passes it too. */
  predicate NamesContentType(name: string)
    ensures NamesContentType(name) <==> exists i: nat :: OccursAt(Lower(name), "content-type", i)
  {
    assert Lower("content-type") == "content-type";
    ContainsIff(Lower(name), "content-type");
    ContainsIgnoringCase(name, "content-type")
  }

  /** A media type found in a header, or the exception computing it threw. */
  function AsPresent(r: Result<string, Exception>): (p: Result<Option<string>, Exception>)
    ensures p != Ok(None)
  {
    match r
    case Ok(m) => Ok(Some(m))
    case Err(e) => Err(e)
  }

  /** The media type of the first header, in list order, whose name passes
      the content-type test; `None` when no header does. */
  function HeadersMediaType(headers: seq<Header>): (r: Result<Option<string>, Exception>)
    ensures r.Err? ==> r.error == MalformedContentType
  {
    if headers == [] then Ok(None)
    else if NamesContentType(headers[0].name) then AsPresent(MediaType(headers[0].value))
    else HeadersMediaType(headers[1..])
  }

  /** The media type a spec request declares; `None` when the request or its
      header list is absent. */
  function SpecMediaType(specReq: Option<SpecRequest>): (r: Result<Option<string>, Exception>)
    ensures r.Err? ==> r.error == MalformedContentType
  {
    match specReq
    case None => Ok(None)
    case Some(spec) =>
      match spec.headers
      case None => Ok(None)
      case Some(headers) => HeadersMediaType(headers)
  }

  /** Header `k` is the first one whose name passes the content-type test. */
  predicate IsFirstContentType(headers: seq<Header>, k: nat) {
    && k < |headers|
    && NamesContentType(headers[k].name)
    && forall j :: 0 <= j < k ==> !NamesContentType(headers[j].name)
  }

  /** getMediaTypeFromSpecReq: the source's index loop with its early return. */
  method GetMediaTypeFromSpecReq(specReq: Option<SpecRequest>) returns (r: Result<Option<string>, Exception>)
    ensures r == SpecMediaType(specReq)
  {
    if specReq.Some? && specReq.value.headers.Some? {
      var headers := specReq.value.headers.value;
      for i := 0 to |headers|
        invariant HeadersMediaType(headers[i..]) == HeadersMediaType(headers)
      {
        if NamesContentType(headers[i].name) {
          return AsPresent(MediaType(headers[i].value));
        }
        assert headers[i..][1..] == headers[i + 1..];
      }
    }
    return Ok(None);
  }

  lemma {:induction false} HeadersMediaTypeFirstMatch(headers: seq<Header>, k: nat)
    requires IsFirstContentType(headers, k)
    ensures HeadersMediaType(headers) == AsPresent(MediaType(headers[k].value))
  {
    if k > 0 {
      HeadersMediaTypeFirstMatch(headers[1..], k - 1);
    }
  }

  lemma {:induction false} HeadersMediaTypeNone(headers: seq<Header>)
    ensures HeadersMediaType(headers) == Ok(None)
        <==> forall j :: 0 <= j < |headers| ==> !NamesContentType(headers[j].name)
  {
    if headers != [] && !NamesContentType(headers[0].name) {
      HeadersMediaTypeNone(headers[1..]);
      assert forall j :: 1 <= j < |headers| ==> headers[j] == headers[1..][j - 1];
    }
  }

  /** The spec request declares no media type exactly when it is absent, its
      header list is absent, or no header name contains "content-type" in
      any case. */
  lemma SpecMediaTypeNone(specReq: Option<SpecRequest>)
    ensures SpecMediaType(specReq) == Ok(None) <==>
      || specReq.None?
      || specReq.value.headers.None?
      || forall j :: 0 <= j < |specReq.value.headers.value| ==>
           !NamesContentType(specReq.value.headers.value[j].name)
  {
    if specReq.Some? && specReq.value.headers.Some? {
      HeadersMediaTypeNone(specReq.value.headers.value);
    }
  }

  /** Otherwise it is the media type of the first such header; later ones
      are never looked at. */
  lemma SpecMediaTypeFirstMatch(spec: SpecRequest, k: nat)
    requires spec.headers.Some? && IsFirstContentType(spec.headers.value, k)
    ensures SpecMediaType(Some(spec)) == AsPresent(MediaType(spec.headers.value[k].value))
  {
    HeadersMediaTypeFirstMatch(spec.headers.value, k);
  }

  /** Inserting a header whose name fails the content-type test anywhere in
      the list leaves the declared media type unchanged. */
  lemma {:induction false} HeadersMediaTypeInsert(headers: seq<Header>, i: nat, h: Header)
    requires i <= |headers|
    requires !NamesContentType(h.name)
    ensures HeadersMediaType(headers[..i] + [h] + headers[i..]) == HeadersMediaType(headers)
  {
    var longer := headers[..i] + [h] + headers[i..];
    if i == 0 {
      assert longer[1..] == headers;
    } else {
      HeadersMediaTypeInsert(headers[1..], i - 1, h);
      assert longer[0] == headers[0];
      assert longer[1..] == headers[1..][..i - 1] + [h] + headers[1..][i - 1..];
    }
  }

  /** getMediaTypeFromHttpReq: only the exact key "content-type" is looked up. */
  function HttpMediaType(httpReq: HttpRequest): (r: Result<Option<string>, Exception>)
    ensures r == Ok(None) <==> "content-type" !in httpReq.headers
    ensures r.Err? <==>
      "content-type" in httpReq.headers && MediaType(httpReq.headers["content-type"]).Err?
    ensures r.Ok? && r.value.Some? ==>
      Ok(r.value.value) == MediaType(httpReq.headers["content-type"])
  {
    if "content-type" in httpReq.headers then
      AsPresent(MediaType(httpReq.headers["content-type"]))
    else
      Ok(None)
  }

  // ---------------------------------------------------------------------
  // isBodyEqual
  // ---------------------------------------------------------------------

  /** `/json/i.test(contentType)`: a null media type is tested as the text
      "null", which does not contain "json". */
  predicate IsJsonMediaType(contentType: Option<string>)
    ensures IsJsonMediaType(contentType) <==>
      contentType.Some? && exists i: nat :: OccursAt(Lower(contentType.value), "json", i)
  {
    assert Lower("json") == "json";
    if contentType.Some? then
      ContainsIff(Lower(contentType.value), "json");
      ContainsIgnoringCase(contentType.value, "json")
    else
      false
  }

  /** `!httpReq.body`: the body is absent or the empty string. */
  predicate IsEmptyBody(body: Option<string>) {
    body.None? || body == Some("")
  }

  /** `JSON.parse(body)`; an absent body is parsed as the text "undefined",
      which the parser rejects. */
  function ParseBody(parse: Parser, body: Option<string>): (r: Option<Json>)
    ensures body.None? ==> r.None?
  {
    match body
    case None => None
    case Some(text) => parse(text)
  }

  /** isBodyEqual: the body verdict, with `lodash.isEqual` as DeepEqual. */
  function IsBodyEqual(httpReq: HttpRequest, specReq: Option<SpecRequest>, contentType: Option<string>,
                       parse: Parser): (r: Result<bool, Exception>)
    ensures r.Err? ==> r.error == InvalidJson || r.error == MissingSpecRequest
    ensures r == Err(MissingSpecRequest) ==> specReq.None? && !IsEmptyBody(httpReq.body)
    ensures r == Err(InvalidJson) ==> IsJsonMediaType(contentType)
  {
    if specReq.None? && IsEmptyBody(httpReq.body) then
      Ok(true)
    else if IsJsonMediaType(contentType) then
      match ParseBody(parse, httpReq.body)
      case None => Err(InvalidJson)
      case Some(observed) =>
        match specReq
        case None => Err(MissingSpecRequest)
        case Some(spec) =>
          match ParseBody(parse, spec.body)
          case None => Err(InvalidJson)
          case Some(expected) => Ok(DeepEqual(observed, expected))
    else
      match specReq
      case None => Err(MissingSpecRequest)
      case Some(spec) => Ok(httpReq.body == spec.body)
  }

  /** Without a spec request, an observed request without a body matches,
      whatever the media type; one with a body makes the call throw. */
  lemma IsBodyEqualWithoutSpec(httpReq: HttpRequest, contentType: Option<string>, parse: Parser)
    ensures IsEmptyBody(httpReq.body) ==> IsBodyEqual(httpReq, None, contentType, parse) == Ok(true)
    ensures !IsEmptyBody(httpReq.body) ==> IsBodyEqual(httpReq, None, contentType, parse).Err?
  {
  }

  /** For a media type without "json", the verdict is exact equality of the
      raw bodies, an absent body being equal only to an absent body. */
  lemma IsBodyEqualText(httpReq: HttpRequest, spec: SpecRequest, contentType: Option<string>, parse: Parser)
    requires !IsJsonMediaType(contentType)
    ensures IsBodyEqual(httpReq, Some(spec), contentType, parse) == Ok(httpReq.body == spec.body)
  {
  }

  /** For a media type with "json", the verdict is equality of the parsed
      values: layout and member order in the texts do not matter. */
  lemma IsBodyEqualJson(httpReq: HttpRequest, spec: SpecRequest, contentType: Option<string>, parse: Parser)
    requires IsJsonMediaType(contentType)
    requires ParseBody(parse, httpReq.body).Some? && ParseBody(parse, spec.body).Some?
    ensures IsBodyEqual(httpReq, Some(spec), contentType, parse)
         == Ok(ParseBody(parse, httpReq.body) == ParseBody(parse, spec.body))
  {
    DeepEqualIsEquality(ParseBody(parse, httpReq.body).value, ParseBody(parse, spec.body).value);
  }

  /** A body the parser rejects makes the call throw; there is no fallback
      to comparing the raw texts, not even identical ones. */
  lemma IsBodyEqualJsonRejects(httpReq: HttpRequest, specReq: Option<SpecRequest>, contentType: Option<string>,
                               parse: Parser)
    requires IsJsonMediaType(contentType)
    requires !(specReq.None? && IsEmptyBody(httpReq.body))
    requires ParseBody(parse, httpReq.body).None?
          || (specReq.Some? && ParseBody(parse, specReq.value.body).None?)
    ensures IsBodyEqual(httpReq, specReq, contentType, parse).Err?
  {
  }

  /** A body compared with itself matches, whenever it can be parsed. */
  lemma IsBodyEqualReflexive(headers: map<string, string>, specHeaders: Option<seq<Header>>, body: Option<string>,
                             contentType: Option<string>, parse: Parser)
    requires IsJsonMediaType(contentType) ==> ParseBody(parse, body).Some?
    ensures IsBodyEqual(HttpRequest(headers, body), Some(SpecRequest(specHeaders, body)), contentType, parse) == Ok(true)
  {
    if IsJsonMediaType(contentType) {
      DeepEqualIsEquality(ParseBody(parse, body).value, ParseBody(parse, body).value);
    }
  }

  /** Exchanging the observed and the expected body does not change the
      verdict. */
  lemma IsBodyEqualSymmetric(headers: map<string, string>, specHeaders: Option<seq<Header>>,
                             body1: Option<string>, body2: Option<string>,
                             contentType: Option<string>, parse: Parser)
    ensures IsBodyEqual(HttpRequest(headers, body1), Some(SpecRequest(specHeaders, body2)), contentType, parse)
         == IsBodyEqual(HttpRequest(headers, body2), Some(SpecRequest(specHeaders, body1)), contentType, parse)
  {
  }

  // ---------------------------------------------------------------------
  // matches
  // ---------------------------------------------------------------------

  /** exports.matches: equal media types (two absent ones included), then the
      body verdict. The two `console.warn` calls are not modelled. */
  function Matches(httpReq: HttpRequest, specReq: Option<SpecRequest>, parse: Parser): (r: Result<bool, Exception>)
    ensures r == Ok(true) ==> HttpMediaType(httpReq).Ok? && HttpMediaType(httpReq) == SpecMediaType(specReq)
    ensures r == Err(MalformedContentType) <==> HttpMediaType(httpReq).Err? || SpecMediaType(specReq).Err?
  {
    var httpMediaType :- HttpMediaType(httpReq);
    var specMediaType :- SpecMediaType(specReq);
    if httpMediaType == specMediaType then IsBodyEqual(httpReq, specReq, httpMediaType, parse) else Ok(false)
  }

  /** Different media types never match, whatever the bodies. */
  lemma MatchesMediaTypeMismatch(httpReq: HttpRequest, specReq: Option<SpecRequest>, parse: Parser)
    requires HttpMediaType(httpReq).Ok? && SpecMediaType(specReq).Ok?
    requires HttpMediaType(httpReq).value != SpecMediaType(specReq).value
    ensures Matches(httpReq, specReq, parse) == Ok(false)
  {
  }

  /** Equal media types, two absent ones included, hand the verdict to the
      body comparison. */
  lemma MatchesSameMediaType(httpReq: HttpRequest, specReq: Option<SpecRequest>, parse: Parser)
    requires HttpMediaType(httpReq).Ok? && HttpMediaType(httpReq) == SpecMediaType(specReq)
    ensures Matches(httpReq, specReq, parse) == IsBodyEqual(httpReq, specReq, HttpMediaType(httpReq).value, parse)
  {
  }

  /** A malformed content-type value on either side makes the call throw,
      the observed request's being resolved first. */
  lemma MatchesMalformedContentType(httpReq: HttpRequest, specReq: Option<SpecRequest>, parse: Parser)
    requires HttpMediaType(httpReq).Err? || SpecMediaType(specReq).Err?
    ensures Matches(httpReq, specReq, parse) == Err(MalformedContentType)
  {
  }

  /** Without a spec request: an observed request with a content-type never
      matches, one without a content-type and without a body matches, and one
      with a body makes the call throw. */
  lemma MatchesWithoutSpec(httpReq: HttpRequest, parse: Parser)
    requires HttpMediaType(httpReq).Ok?
    ensures "content-type" in httpReq.headers ==> Matches(httpReq, None, parse) == Ok(false)
    ensures "content-type" !in httpReq.headers && IsEmptyBody(httpReq.body) ==>
      Matches(httpReq, None, parse) == Ok(true)
    ensures "content-type" !in httpReq.headers && !IsEmptyBody(httpReq.body) ==>
      Matches(httpReq, None, parse) == Err(MissingSpecRequest)
  {
  }

  /** Under a common media type without "json" (multipart and form data
      included), a spec request matches exactly the requests whose raw body
      is the same text. */
  lemma MatchesTextBodies(httpReq: HttpRequest, spec: SpecRequest, parse: Parser)
    requires HttpMediaType(httpReq).Ok? && HttpMediaType(httpReq) == SpecMediaType(Some(spec))
    requires !IsJsonMediaType(HttpMediaType(httpReq).value)
    ensures Matches(httpReq, Some(spec), parse) == Ok(httpReq.body == spec.body)
  {
    IsBodyEqualText(httpReq, spec, HttpMediaType(httpReq).value, parse);
  }

  /** Under a common JSON media type, a spec request matches exactly the
      requests whose body parses to the same value as its own. */
  lemma MatchesJsonBodies(httpReq: HttpRequest, spec: SpecRequest, parse: Parser)
    requires HttpMediaType(httpReq).Ok? && HttpMediaType(httpReq) == SpecMediaType(Some(spec))
    requires IsJsonMediaType(HttpMediaType(httpReq).value)
    requires ParseBody(parse, httpReq.body).Some? && ParseBody(parse, spec.body).Some?
    ensures Matches(httpReq, Some(spec), parse) == Ok(ParseBody(parse, httpReq.body) == ParseBody(parse, spec.body))
  {
    IsBodyEqualJson(httpReq, spec, HttpMediaType(httpReq).value, parse);
  }

  /** Observed headers other than "content-type" do not affect the verdict. */
  lemma MatchesIgnoresOtherHttpHeaders(httpReq: HttpRequest, specReq: Option<SpecRequest>, parse: Parser,
                                       name: string, value: string)
    requires name != "content-type"
    ensures Matches(httpReq.(headers := httpReq.headers[name := value]), specReq, parse)
         == Matches(httpReq, specReq, parse)
  {
  }

  /** Spec headers whose name does not contain "content-type" do not affect
      the verdict, wherever they stand in the list. */
  lemma MatchesIgnoresOtherSpecHeaders(httpReq: HttpRequest, spec: SpecRequest, parse: Parser,
                                       i: nat, h: Header)
    requires spec.headers.Some? && i <= |spec.headers.value|
    requires !NamesContentType(h.name)
    ensures Matches(httpReq, Some(spec.(headers := Some(spec.headers.value[..i] + [h] + spec.headers.value[i..]))), parse)
         == Matches(httpReq, Some(spec), parse)
  {
    HeadersMediaTypeInsert(spec.headers.value, i, h);
  }

  // ---------------------------------------------------------------------
  // Worked requests
  // ---------------------------------------------------------------------

  /** A value without `;` and without capitals is its own media type. */
  lemma MediaTypeOfPlain(m: string)
    requires m != []
    requires forall i :: 0 <= i < |m| ==> m[i] != ';' && !IsUpper(m[i])
    ensures MediaType(m) == Ok(m)
  {
    MediaTypeDropsParameters(m, "");
    assert Lower(m) == m;
  }

  lemma ApplicationJsonMediaType()
    ensures MediaType("application/json") == Ok("application/json")
  {
    MediaTypeOfPlain("application/json");
  }

  lemma ApplicationJsonIsJson()
    ensures IsJsonMediaType(Some("application/json"))
  {
    assert Lower("application/json") == "application/json";
    assert OccursAt("application/json", "json", 12);
    ContainsComplete("application/json", Lower("json"), 12);
  }

  /** Every header name with "content-type", in any case, somewhere inside
      it passes the spec side's header test. */
  lemma NamesContentTypeInfix(prefix: string, middle: string, suffix: string)
    requires Lower(middle) == "content-type"
    ensures NamesContentType(prefix + middle + suffix)
  {
    LowerConcat(prefix + middle, suffix);
    LowerConcat(prefix, middle);
    assert Lower("content-type") == "content-type";
    ContainsInfix(Lower(prefix), "content-type", Lower(suffix));
  }

  /** Two JSON bodies whose objects list the same members in a different
      order match. */
  lemma MatchesJsonMemberOrder(httpReq: HttpRequest, spec: SpecRequest, parse: Parser,
                               name1: string, value1: Json, name2: string, value2: Json)
    requires HttpMediaType(httpReq).Ok? && HttpMediaType(httpReq) == SpecMediaType(Some(spec))
    requires IsJsonMediaType(HttpMediaType(httpReq).value)
    requires name1 != name2
    requires ParseBody(parse, httpReq.body) == Some(JObject(map[name1 := value1, name2 := value2]))
    requires ParseBody(parse, spec.body) == Some(JObject(map[name2 := value2, name1 := value1]))
    ensures Matches(httpReq, Some(spec), parse) == Ok(true)
  {
    assert map[name1 := value1, name2 := value2] == map[name2 := value2, name1 := value1];
    MatchesJsonBodies(httpReq, spec, parse);
  }

  /** The spec side resolves "Content-Type: application/json". */
  lemma SpecApplicationJson(specBody: Option<string>)
    ensures SpecMediaType(Some(SpecRequest(Some([Header("Content-Type", "application/json")]), specBody)))
         == Ok(Some("application/json"))
  {
    ApplicationJsonMediaType();
    var name := "Content-Type";
    assert Lower(name) == "content-type";
    NamesContentTypeInfix("", name, "");
    assert "" + name + "" == name;
    SpecMediaTypeFirstMatch(SpecRequest(Some([Header(name, "application/json")]), specBody), 0);
  }

  /** An observed application/json request and a spec request with a
      "Content-Type: application/json" header resolve to the same JSON
      media type. */
  lemma ApplicationJsonRequests(body: Option<string>, specBody: Option<string>)
    ensures HttpMediaType(HttpRequest(map["content-type" := "application/json"], body))
         == SpecMediaType(Some(SpecRequest(Some([Header("Content-Type", "application/json")]), specBody)))
         == Ok(Some("application/json"))
    ensures IsJsonMediaType(Some("application/json"))
  {
    ApplicationJsonMediaType();
    ApplicationJsonIsJson();
    SpecApplicationJson(specBody);
  }

  /** Because the spec side's header test is a substring test, a header
      such as "X-Content-Type-Options: nosniff" listed first supplies the
      spec's media type, whatever "Content-Type" header follows it; a request
      whose own media type differs from that header's then never matches,
      whatever the bodies. */
  lemma MatchesContentTypeLookalikeFirst(httpReq: HttpRequest, prefix: string, suffix: string, value: string,
                                         rest: seq<Header>, specBody: Option<string>, parse: Parser)
    requires HttpMediaType(httpReq).Ok? && MediaType(value).Ok?
    requires HttpMediaType(httpReq).value != Some(MediaType(value).value)
    ensures SpecMediaType(Some(SpecRequest(Some([Header(prefix + "Content-Type" + suffix, value)] + rest), specBody)))
         == Ok(Some(MediaType(value).value))
    ensures Matches(httpReq, Some(SpecRequest(Some([Header(prefix + "Content-Type" + suffix, value)] + rest), specBody)),
                    parse) == Ok(false)
  {
    assert Lower("Content-Type") == "content-type";
    NamesContentTypeInfix(prefix, "Content-Type", suffix);
    var spec := SpecRequest(Some([Header(prefix + "Content-Type" + suffix, value)] + rest), specBody);
    SpecMediaTypeFirstMatch(spec, 0);
  }
}
