# curl command-line serialiser

This project models the part of curl-generator that turns an OkHttp request
into the text of an equivalent `curl` command. The request is reduced to a
snapshot: method, URL, the ordered header list (duplicates kept) and an
optional body. The body has a declared media type, a runtime class (form,
multipart or other) and what reading it yields. The serialiser exists in four
versions, and each is modelled on its own over that shared snapshot:

- `Generator` is the `curl.generator` generator. It has the url-encoded form,
  multipart, binary and raw body branches and `--compressed`, and it puts the
  URL last.
- `LibraryGenerator` is the `curl_generator` library generator. It reads every
  body as raw text and puts the URL last.
- `InterceptorGenerator` is the `curl_interceptor` generator. It puts the URL
  right after `curl` and never adds `--compressed`.
- `SampleInterceptor` is the sample app's `cURLGenerator`. It uses single
  quotes and `name: value` headers and keeps the method's case. It reads part
  names from `Content-Disposition`, refuses multipart bodies over 100 KiB and
  guesses a JSON `Content-Type`.

Each generator class keeps the source's fields. Its constructor is `init`, and
its `Build` method is proved to return `Join(delimiter, Tokens(request))`.
`Tokens` is a specification function over the snapshot. The lemmas beside it
state the token order, the branch decisions and the round trips. The sample's
`CurlCommand` grows a string by appends, as the source does. It is proved equal
to the space-joined token list of `Generate`.

Shared modules:

- `Joining` holds `join` and the two `Delimiter` constants (`" "` and
  `" \\\n"`).
- `Text` holds the Kotlin string operations the generators use.
- `HeaderModel` holds the `Header` value class.
- `Requests` holds the snapshot datatypes, `containsName` and
  `getBodyAsString`.
- `CurlFormat` holds the double-quoting token formats and the URL-last token
  order.

Exceptions the source lets escape become `Failure(description)` of a `Result`.
Nulls become `None`.

The repository's unit tests expect output that the generators do not
produce. The model follows the generator code:

- `module/src/test/java/com/danielworld/curl_interceptor/CurlInterceptorTest.kt:70`
  and `:112` expect single quotes, `name: value` headers, an inferred JSON
  type and `--compressed` from the `curl_interceptor` generator. That
  generator double-quotes, writes `name:value` and never emits
  `--compressed`, as `InterceptorGenerator.Positions` and
  `InterceptorGenerator.NeverCompressed` state. It infers a type only from
  the body's declared media type, and in those tests the body has none.
- `module/src/test/java/com/danielworld/curl_generator/HttpFormUrlEncodedPostRequestTest.kt:70`
  and `:93` expect one `--data-urlencode` token per form field from the
  `curl_generator` library generator. That generator reads every body as raw
  text and emits one `-d '...'` token, as `LibraryGenerator.BodyTokenIff`
  states.

It is not clear whether the tests or the code are stale, so these are not
listed as defects.

Three behaviours of the code are easy to miss:

- Body selection tests whether the media type *contains*
  `application/x-www-form-urlencoded`, `multipart/form-data` or
  `application/octet-stream`, so any type that has one of them inside it
  selects that branch.
- In the `curl.generator` version, `build` can throw. A multipart part whose
  header list is present but empty makes `last()` throw
  `NoSuchElementException` (`Generator.PartToken`,
  `GeneratorProperties.ThrowsIff`).
- A multipart part created without headers gives no `-F` token at all.

## Model

| member | source | states |
|---|---|---|
| Joining.JoinTokens | module/src/main/java/com/danielworld/curl/generator/internal/CurlGenerator.kt:187-202 | the `firstTime`/`StringBuilder` loop returns exactly the tokens joined with one delimiter between neighbours |
| Joining.JoinLength | library/src/main/java/com/danielworld/curl_generator/internal/CurlGenerator.kt:131-146 | joining n tokens adds exactly n-1 delimiters: the length is the tokens' total plus (n-1) delimiter lengths |
| Joining.JoinLayout | module/src/main/java/com/danielworld/curl_interceptor/internal/CurlGenerator.kt:112-127 | token i sits at its offset, exactly one delimiter separates it from token i+1, and the last token ends the text |
| Joining.JoinFrame | module/src/main/java/com/danielworld/curl/generator/internal/CurlGenerator.kt:187-202 | no delimiter precedes the first token: the text starts with `t0 d t1 d` and ends with `d` and the last token |
| Joining.JoinConcat | module/src/main/java/com/danielworld/curl/generator/internal/CurlGenerator.kt:187-202 | joining two non-empty token lists is joining each and putting one delimiter between |
| Text.ContainsIff | module/src/main/java/com/danielworld/curl/generator/internal/CurlGenerator.kt:101 | `contains` holds exactly when the pattern occurs at some position |
| Text.RemovePrefix | module/src/main/java/com/danielworld/curl/generator/internal/CurlGenerator.kt:109 | `removePrefix` undoes a present prefix and leaves other text alone |
| Text.RemoveSuffix | module/src/main/java/com/danielworld/curl/generator/internal/CurlGenerator.kt:109 | `removeSuffix` undoes a present suffix and leaves other text alone |
| Text.TrimStartDropsBlanks | module/src/main/java/com/danielworld/curl/generator/internal/CurlGenerator.kt:107 | trimming the front removes a run of whitespace and nothing else, and leaves no whitespace first |
| Text.TrimEndDropsBlanks | module/src/main/java/com/danielworld/curl/generator/internal/CurlGenerator.kt:107 | trimming the back removes a run of whitespace and nothing else, and leaves no whitespace last |
| Text.Split | module/src/main/java/com/danielworld/curl/generator/internal/CurlGenerator.kt:102 | `split(";")` always gives at least one piece |
| Text.SplitJoin | module/src/main/java/com/danielworld/curl/generator/internal/CurlGenerator.kt:102 | joining the pieces back with the delimiter gives the original text (empty pieces kept) |
| Text.SplitPiecesLackSeparator | module/src/main/java/com/danielworld/curl/generator/internal/CurlGenerator.kt:102 | no piece of the split holds the delimiter |
| Text.SplitNoSeparator | module/src/main/java/com/danielworld/curl/generator/internal/CurlGenerator.kt:102 | a text without the delimiter splits into itself alone |
| Text.SplitAtSeparator | module/src/main/java/com/danielworld/curl/generator/internal/CurlGenerator.kt:102 | the first delimiter closes the first piece, and the rest splits on its own |
| Text.RemoveAllChar | sample/src/main/java/com/danielworld/curl_interceptor_sample/CurlLoggingInterceptor.kt:112 | `replace("\"", "")` leaves no quote; the text is unchanged iff it had none, and shorter otherwise |
| Text.RemoveAllAbsent | sample/src/main/java/com/danielworld/curl_interceptor_sample/CurlLoggingInterceptor.kt:112 | `replace(p, "")` leaves a text without `p` unchanged |
| Text.CharEqualsIgnoreCaseIff | module/src/main/java/com/danielworld/curl/generator/internal/CurlGenerator.kt:62 | two characters are equal ignoring case iff their upper-case forms are equal |
| Text.EqualsIgnoreCaseIff | module/src/main/java/com/danielworld/curl/generator/internal/CurlGenerator.kt:62 | `equals(ignoreCase = true)` holds iff the upper-cased texts are equal (so it is an equivalence) |
| Text.ToUpperIdempotent | module/src/main/java/com/danielworld/curl/generator/internal/CurlGenerator.kt:77 | `toUpperCase` leaves no lower-case ASCII letter, and a second pass changes nothing |
| HeaderModel.Wrap32 | module/src/main/java/com/danielworld/curl_interceptor/internal/Header.kt:21-25 | 32-bit `Int` arithmetic: the result is congruent to the exact value mod 2^32 and equals it when in range |
| HeaderModel.AccessorsReturnArguments | module/src/main/java/com/danielworld/curl_interceptor/internal/Header.kt:3-10 | `name()` and `value()` return the constructor arguments, null included |
| HeaderModel.EqualsIff | module/src/main/java/com/danielworld/curl_interceptor/internal/Header.kt:12-19 | two headers are equal iff their names are equal and their values are equal (null only to null); nothing equals null |
| HeaderModel.EqualsIsEquivalence | module/src/main/java/com/danielworld/curl_interceptor/internal/Header.kt:13-19 | `equals` is reflexive, symmetric and transitive |
| HeaderModel.HashCodeAgreesWithEquals | module/src/main/java/com/danielworld/curl_interceptor/internal/Header.kt:21-25 | equal headers have equal `hashCode`, for any string hash |
| HeaderModel.HashCodeFormula | module/src/main/java/com/danielworld/curl_interceptor/internal/Header.kt:21-25 | `hashCode` is `31*h(name)+h(value)` mod 2^32, with null hashing to 0 |
| Requests.ToHeadersHasName | module/src/main/java/com/danielworld/curl/generator/internal/CurlGenerator.kt:60-71 | the copied header list has a header named exactly `n` iff some request header is named exactly `n` |
| Requests.ContainsName | module/src/main/java/com/danielworld/curl/generator/internal/CurlGenerator.kt:170-180 | the scan with early return answers true iff some header's name is exactly the given one (case-sensitive) |
| CurlFormat.UrlLastPositions | module/src/main/java/com/danielworld/curl/generator/internal/CurlGenerator.kt:74-143 | URL-last order: `curl`, `-X METHOD`, header i at 2+i, the inferred type, the body tokens, optional `--compressed`, then the quoted URL last |
| CurlFormat.UrlLastContentType | module/src/main/java/com/danielworld/curl/generator/internal/CurlGenerator.kt:84-91 | the token after the headers is a header token iff a type is declared and no header is named exactly `Content-Type`; it then carries that type |
| CurlFormat.UrlLastCompressed | module/src/main/java/com/danielworld/curl/generator/internal/CurlGenerator.kt:137-141 | `--compressed` is among the tokens iff the flag is set, and then it is the token just before the URL |
| CurlFormat.UrlLastFrame | module/src/main/java/com/danielworld/curl/generator/internal/CurlGenerator.kt:74-143 | the joined command starts with `curl`, delimiter, method, delimiter and ends with delimiter and quoted URL |
| CurlFormat.InfersContentTypeIff | module/src/main/java/com/danielworld/curl/generator/internal/CurlGenerator.kt:84-91 | the inference condition on the request fields is the one `build` tests on the copied `Header` objects: a declared type and no header named exactly `Content-Type` |
| CurlFormat.UrlLastBody | module/src/main/java/com/danielworld/curl/generator/internal/CurlGenerator.kt:93-141 | in the URL-last order the body tokens sit from the index after the inferred type, followed only by the optional `--compressed` and the URL |
| CurlFormat.InferredContentTypeOf | module/src/main/java/com/danielworld/curl/generator/internal/CurlGenerator.kt:84-91 | the inferred `Content-Type` token exists iff the body declares a type and no request header is named exactly `Content-Type` |
| Generator.ParseDisposition | module/src/main/java/com/danielworld/curl/generator/internal/CurlGenerator.kt:103-114 | the segment loop leaves `name` from the last trimmed `name="` segment (default empty) and, for a file, `value` = `@` + the last `filename="` segment |
| Generator.PartTokensFailureSticks | module/src/main/java/com/danielworld/curl/generator/internal/CurlGenerator.kt:99-100 | once a part throws, the whole build throws that exception |
| Generator.AppendParts | module/src/main/java/com/danielworld/curl/generator/internal/CurlGenerator.kt:98-122 | the part loop appends exactly the part tokens, or stops with the exception of the first part with an empty header list |
| Generator.CurlGenerator.constructor | module/src/main/java/com/danielworld/curl/generator/internal/CurlGenerator.kt:41-72 | `init` sets exactly the body field of the selected branch, copies the headers in order and sets `compressed` iff some header asks for gzip |
| Generator.CurlGenerator.AppendBody | module/src/main/java/com/danielworld/curl/generator/internal/CurlGenerator.kt:93-135 | the `?:` chain appends the tokens of the one branch `init` selected |
| Generator.CurlGenerator.Build | module/src/main/java/com/danielworld/curl/generator/internal/CurlGenerator.kt:74-144 | `build` returns the joined token list, or throws what the multipart loop throws |
| GeneratorProperties.PartTokensAreFormFields | module/src/main/java/com/danielworld/curl/generator/internal/CurlGenerator.kt:120 | every multipart token is a `-F "..."` token |
| GeneratorProperties.BodyTokensArePlain | module/src/main/java/com/danielworld/curl/generator/internal/CurlGenerator.kt:93-135 | no body token starts with `-H ` or is `--compressed` |
| GeneratorProperties.SelectionOrder | module/src/main/java/com/danielworld/curl/generator/internal/CurlGenerator.kt:41-58 | exactly one branch applies, tried as form, multipart, binary, raw; each iff its condition holds and no earlier one does |
| GeneratorProperties.PartTokensInOrder | module/src/main/java/com/danielworld/curl/generator/internal/CurlGenerator.kt:99-121 | with no empty header list the loop succeeds, and its tokens are those of the parts with headers, in part order; parts without headers add nothing |
| GeneratorProperties.PartTokensOnePerPart | module/src/main/java/com/danielworld/curl/generator/internal/CurlGenerator.kt:99-121 | when every part has a non-empty header list there is one token per part, the i-th from the i-th part |
| GeneratorProperties.PartTokensFailIff | module/src/main/java/com/danielworld/curl/generator/internal/CurlGenerator.kt:99-100 | the part tokens fail iff some part's header list is present and empty, with `NoSuchElementException` |
| GeneratorProperties.ThrowsIff | module/src/main/java/com/danielworld/curl/generator/internal/CurlGenerator.kt:98-122 | `build` throws iff the multipart branch is taken and some part has an empty header list |
| GeneratorProperties.HeadersInOrder | module/src/main/java/com/danielworld/curl/generator/internal/CurlGenerator.kt:76-82 | `curl`, `-X` with the upper-cased method, then one `-H "name:value"` per header in request order with duplicates kept; the URL is last |
| GeneratorProperties.ContentTypeInference | module/src/main/java/com/danielworld/curl/generator/internal/CurlGenerator.kt:84-91 | the token after the headers is a header iff the body has a type and no header is named exactly `Content-Type`, and then it is `-H "Content-Type:<type>"` |
| GeneratorProperties.CompressedFlag | module/src/main/java/com/danielworld/curl/generator/internal/CurlGenerator.kt:137-141 | `--compressed` appears iff some header is `Accept-Encoding: gzip` ignoring case, and then just before the URL |
| GeneratorProperties.ContentTypeSlot | module/src/main/java/com/danielworld/curl/generator/internal/CurlGenerator.kt:84-91 | the token after the headers is a header token iff the body has a type and no copied header is named exactly `Content-Type` |
| GeneratorProperties.BodyPosition | module/src/main/java/com/danielworld/curl/generator/internal/CurlGenerator.kt:93-141 | the body tokens sit right after the inferred type, followed only by `--compressed` and the URL |
| GeneratorProperties.FormFields | module/src/main/java/com/danielworld/curl/generator/internal/CurlGenerator.kt:93-97 | a form gives one `--data-urlencode "name=value"` per pair in order, names and values copied as encoded |
| GeneratorProperties.BinaryBodyNotRead | module/src/main/java/com/danielworld/curl/generator/internal/CurlGenerator.kt:123-129 | an octet-stream body gives the single `--data-binary @filename` token, and replacing its content changes nothing |
| GeneratorProperties.RawBody | module/src/main/java/com/danielworld/curl/generator/internal/CurlGenerator.kt:131-135 | any other body gives one `-d '<text>'`, or the `Error while reading body:` text when the read throws |
| GeneratorProperties.BareRequest | module/src/main/java/com/danielworld/curl/generator/internal/CurlGenerator.kt:74-144 | no headers and no body give exactly `curl -X <METHOD> "<url>"` |
| GeneratorProperties.OneHeaderTokens | module/src/main/java/com/danielworld/curl/generator/internal/CurlGenerator.kt:74-144 | one plain header and no body give exactly the tokens `curl`, `-X <METHOD>`, `-H "name:value"`, `"<url>"` |
| GeneratorProperties.OneHeaderRequest | module/src/main/java/com/danielworld/curl/generator/internal/CurlGenerator.kt:74-144 | one plain header and no body give exactly `curl -X <METHOD> -H "name:value" "<url>"` |
| GeneratorProperties.CommandFrame | module/src/main/java/com/danielworld/curl/generator/internal/CurlGenerator.kt:74-144 | the command starts with `curl`, delimiter, method, delimiter and ends with delimiter and quoted URL |
| GeneratorProperties.NameDefaultsToEmpty | module/src/main/java/com/danielworld/curl/generator/internal/CurlGenerator.kt:103-110 | without a `name="` segment the part name is empty |
| GeneratorProperties.LastNameWins | module/src/main/java/com/danielworld/curl/generator/internal/CurlGenerator.kt:106-110 | with several `name="` segments the last one gives the name |
| GeneratorProperties.QuotedSegment | module/src/main/java/com/danielworld/curl/generator/internal/CurlGenerator.kt:107-112 | a ` prefix"value"` segment trims to `prefix"value"`, and unquoting gives the value back |
| GeneratorProperties.DispositionSegments | module/src/main/java/com/danielworld/curl/generator/internal/CurlGenerator.kt:102 | a `form-data; name="n"[; filename="f"]` disposition splits into its two or three segments |
| GeneratorProperties.FileDispositionIsFile | module/src/main/java/com/danielworld/curl/generator/internal/CurlGenerator.kt:101 | a disposition with a file name is a file part |
| GeneratorProperties.TextDispositionIsNotFile | module/src/main/java/com/danielworld/curl/generator/internal/CurlGenerator.kt:101 | a disposition without a file name, whose name has no `=`, is not a file part |
| GeneratorProperties.NoFileMarkAt | module/src/main/java/com/danielworld/curl/generator/internal/CurlGenerator.kt:101 | `filename=` occurs at no position of such a disposition |
| GeneratorProperties.FileSegmentIsNotName | module/src/main/java/com/danielworld/curl/generator/internal/CurlGenerator.kt:108-111 | a trimmed `filename="` segment is never taken for the name |
| GeneratorProperties.NameSegmentGivesName | module/src/main/java/com/danielworld/curl/generator/internal/CurlGenerator.kt:102-110 | the segments `form-data` and ` name="<name>"` give the name back |
| GeneratorProperties.NameRoundTrip | module/src/main/java/com/danielworld/curl/generator/internal/CurlGenerator.kt:102-110 | parsing a form-data disposition gives back the name it was built with |
| GeneratorProperties.FileRoundTrip | module/src/main/java/com/danielworld/curl/generator/internal/CurlGenerator.kt:111-113 | parsing a file part's disposition gives back `@` and the file name it was built with |
| GeneratorProperties.FormDataRoundTrip | module/src/main/java/com/danielworld/curl/generator/internal/CurlGenerator.kt:98-121 | a part whose disposition was built for a name (and file) gives `-F "name=@file"` for a file and `-F "name=<content>"` for text |
| LibraryGenerator.CurlGenerator.constructor | library/src/main/java/com/danielworld/curl_generator/internal/CurlGenerator.kt:37-56 | `init` reads any present body and its type, copies the headers in order and sets `compressed` iff some header asks for gzip |
| LibraryGenerator.CurlGenerator.Build | library/src/main/java/com/danielworld/curl_generator/internal/CurlGenerator.kt:58-88 | `build` returns the URL-last tokens joined with the delimiter |
| LibraryGenerator.BodyTokenIff | library/src/main/java/com/danielworld/curl_generator/internal/CurlGenerator.kt:77-85 | a `-d '<text>'` token appears iff the request has a body, just before the optional `--compressed` and the URL |
| LibraryGenerator.ReadFailureFallback | library/src/main/java/com/danielworld/curl_generator/internal/CurlGenerator.kt:77-85 | a request whose body read throws still gives the whole command: `-d 'Error while reading body: <e>'` in the body slot, then the optional `--compressed` and the URL |
| LibraryGenerator.BodyTokensArePlain | library/src/main/java/com/danielworld/curl_generator/internal/CurlGenerator.kt:77-79 | the body token never starts with `-H ` and is never `--compressed` |
| LibraryGenerator.HeadersInOrder | library/src/main/java/com/danielworld/curl_generator/internal/CurlGenerator.kt:60-66 | `curl`, the upper-cased method, then one `-H "name:value"` per header in request order with duplicates kept |
| LibraryGenerator.ContentTypeInference | library/src/main/java/com/danielworld/curl_generator/internal/CurlGenerator.kt:68-75 | the token after the headers is a header iff the body has a type and no header is named exactly `Content-Type`, and it carries that type |
| LibraryGenerator.CompressedFlag | library/src/main/java/com/danielworld/curl_generator/internal/CurlGenerator.kt:46-48 | `--compressed` appears iff some header is `Accept-Encoding: gzip` ignoring case, and then just before the URL |
| LibraryGenerator.CommandFrame | library/src/main/java/com/danielworld/curl_generator/internal/CurlGenerator.kt:58-88 | the command starts with `curl` and the method and ends with the quoted URL |
| LibraryGenerator.BareRequest | library/src/main/java/com/danielworld/curl_generator/internal/CurlGenerator.kt:58-88 | no headers and no body give exactly `curl -X <METHOD> "<url>"` |
| InterceptorGenerator.CurlGenerator.constructor | module/src/main/java/com/danielworld/curl_interceptor/internal/CurlGenerator.kt:29-45 | `init` reads any present body and its type and copies the headers in order |
| InterceptorGenerator.CurlGenerator.Build | module/src/main/java/com/danielworld/curl_interceptor/internal/CurlGenerator.kt:47-69 | `build` returns `curl`, URL, method, headers, inferred type and body joined with the delimiter |
| InterceptorGenerator.Positions | module/src/main/java/com/danielworld/curl_interceptor/internal/CurlGenerator.kt:47-69 | the quoted URL is second, then the upper-cased method, the headers in order, the inferred type and the `-d` token |
| InterceptorGenerator.ContentTypeInference | module/src/main/java/com/danielworld/curl_interceptor/internal/CurlGenerator.kt:58-62 | the token after the headers is a header iff a type is declared and no header is named exactly `Content-Type` |
| InterceptorGenerator.BodyLastIff | module/src/main/java/com/danielworld/curl_interceptor/internal/CurlGenerator.kt:64-66 | the last token is `-d '...'` iff the request has a body |
| InterceptorGenerator.NeverCompressed | module/src/main/java/com/danielworld/curl_interceptor/internal/CurlGenerator.kt:36-44 | `--compressed` is never emitted, even for `Accept-Encoding: gzip` |
| InterceptorGenerator.CommandStart | module/src/main/java/com/danielworld/curl_interceptor/internal/CurlGenerator.kt:49-51 | the command starts with `curl`, delimiter, quoted URL, delimiter |
| SampleInterceptor.FindPartName | sample/src/main/java/com/danielworld/curl_interceptor_sample/CurlLoggingInterceptor.kt:109-115 | the segment loop with `break` yields the name of the first `name=` segment, or empty |
| SampleInterceptor.AppendParts | sample/src/main/java/com/danielworld/curl_interceptor_sample/CurlLoggingInterceptor.kt:99-138 | the part loop appends one ` -F 'name=body'` per part, or throws the first read failure |
| SampleInterceptor.FailureSticks | sample/src/main/java/com/danielworld/curl_interceptor_sample/CurlLoggingInterceptor.kt:124-127 | once a part's read throws, the whole call throws that exception |
| SampleInterceptor.HeaderTokensStep | sample/src/main/java/com/danielworld/curl_interceptor_sample/CurlLoggingInterceptor.kt:62 | each header adds one `-H 'name: value'` token after those of the headers before it |
| SampleInterceptor.HeaderFlagsStep | sample/src/main/java/com/danielworld/curl_interceptor_sample/CurlLoggingInterceptor.kt:56-61 | each header sets `compressed` iff it asks for gzip and `contentTypeFound` iff it is named `Content-Type` ignoring case |
| SampleInterceptor.AppendHeaders | sample/src/main/java/com/danielworld/curl_interceptor_sample/CurlLoggingInterceptor.kt:50-64 | the header loop appends ` -H 'name: value'` per header in order and computes both flags over all headers |
| SampleInterceptor.AppendBody | sample/src/main/java/com/danielworld/curl_interceptor_sample/CurlLoggingInterceptor.kt:67-193 | the body branch appends the body tokens, or stops with `---` or with the exception a read threw |
| SampleInterceptor.CurlCommand | sample/src/main/java/com/danielworld/curl_interceptor_sample/CurlLoggingInterceptor.kt:40-200 | `cURLGenerator` returns the space-joined tokens, `---` for a large multipart body, or throws the read's exception |
| SampleInterceptor.LastValueSpec | sample/src/main/java/com/danielworld/curl_interceptor_sample/CurlLoggingInterceptor.kt:104 | `h["Content-Disposition"]` is the value of the last field matching ignoring case, null iff none matches |
| SampleInterceptor.FirstNameDefault | sample/src/main/java/com/danielworld/curl_interceptor_sample/CurlLoggingInterceptor.kt:101-115 | without a `name=` segment the part name stays empty |
| SampleInterceptor.FirstNameWins | sample/src/main/java/com/danielworld/curl_interceptor_sample/CurlLoggingInterceptor.kt:110-114 | the first trimmed `name=` segment gives the name, with `name=` and quotes removed, whatever follows |
| SampleInterceptor.FirstNameHasNoQuote | sample/src/main/java/com/danielworld/curl_interceptor_sample/CurlLoggingInterceptor.kt:112 | a name taken from the segments contains no double quote |
| SampleInterceptor.PartNameHasNoQuote | sample/src/main/java/com/danielworld/curl_interceptor_sample/CurlLoggingInterceptor.kt:100-117 | no part name contains a double quote |
| SampleInterceptor.PartTokensSpec | sample/src/main/java/com/danielworld/curl_interceptor_sample/CurlLoggingInterceptor.kt:99-138 | all parts readable iff success; then one `-F 'name=body'` per part in order; else the first failing part's exception |
| SampleInterceptor.TooLargeIff | sample/src/main/java/com/danielworld/curl_interceptor_sample/CurlLoggingInterceptor.kt:91-97 | the result is `---` iff the body is multipart with content length over 100*1024 |
| SampleInterceptor.ThrowsIff | sample/src/main/java/com/danielworld/curl_interceptor_sample/CurlLoggingInterceptor.kt:124-160 | the call throws iff a read it performs fails: a part of a small multipart body, or a body neither multipart nor octet-stream |
| SampleInterceptor.HeadLayout | sample/src/main/java/com/danielworld/curl_interceptor_sample/CurlLoggingInterceptor.kt:46-64 | `curl`, `'<url>'`, `-X <method>` with the case kept, then one `-H 'name: value'` per header in order |
| SampleInterceptor.BodyTokensNotCompressed | sample/src/main/java/com/danielworld/curl_interceptor_sample/CurlLoggingInterceptor.kt:134-187 | no body token is `--compressed` |
| SampleInterceptor.CompressedLast | sample/src/main/java/com/danielworld/curl_interceptor_sample/CurlLoggingInterceptor.kt:195-197 | the last token is `--compressed` iff some header is `Accept-Encoding: gzip` ignoring case |
| SampleInterceptor.OctetBodyNotRead | sample/src/main/java/com/danielworld/curl_interceptor_sample/CurlLoggingInterceptor.kt:144-154 | a non-multipart octet-stream body gives the attach-your-file placeholder, and its content is never read |
| SampleInterceptor.JsonContentType | sample/src/main/java/com/danielworld/curl_interceptor_sample/CurlLoggingInterceptor.kt:166-187 | the JSON `Content-Type` header precedes `-d` iff no `Content-Type` header (ignoring case) was seen and the text parses as JSON |

## Left out

- The `CurlInterceptor` classes of both packages are not modelled: `intercept`, `chain.proceed` and log printing. Only the two `Delimiter` constants are kept, as `Joining.EMPTY_SPACE` and `Joining.BACKSLASH_NEW_LINE`.
- OkHttp and Okio body reading is not modelled: `Buffer`, `writeTo`, `readString`, charset choice and `MediaType.toString()`. A body is given as its media-type text and the result of reading it: the text, or the description of the I/O exception.
- `FormBody` percent-encoding and `MultipartBody` boundaries belong to the HTTP client. Pairs arrive already encoded.
- A multipart body's `contentLength()` is an input number. An exception thrown while computing it is not modelled.
- JSON parsing in the sample is the parameter `parsesAsJson`. It stands for `JSONObject` or `JSONArray` accepting the text.
- `String.hashCode` is the parameter `stringHash` of `HeaderModel.Header.HashCode`.
- Text.ToUpper: upper-cases ASCII letters only. `toUpperCase` is locale-dependent and covers all of Unicode.
- Text.EqualsIgnoreCase: folds ASCII letters only, not the rest of Unicode.
- Text.IsWhitespace lists the code points that are whitespace in current JVMs, and U+180E is not among them.
- `String.format` is plain concatenation. A null header name or value prints as `null` (`CurlFormat.Show`).
- The one-argument `CurlGenerator(request)` constructors are not separate members. Each equals the two-argument constructor with `Joining.EMPTY_SPACE`.
- The sample's `ENABLE_LOG` flag and its `Log` calls do not affect the result and are not modelled.
- Identity in `Header.equals` (`this === o`) is not modelled, because it agrees with comparing the fields.
- GeneratorProperties.FormDataRoundTrip: the round trip is stated only for names and file names without `;` and without surrounding whitespace. For text parts the name must also have no `=`. The source makes no promise for other names.
