/** The token formats the three double-quoting generators share (their
    `FORMAT_*` constants), and the URL-last token order of two of them. */
module CurlFormat {
  import opened Wrappers
  import opened Text
  import opened Joining
  import opened HeaderModel
  import opened Requests

  const CURL: string := "curl"
  const COMPRESSED: string := "--compressed"

  /** What `String.format("%s", x)` prints for a nullable string. */
  function Show(s: Option<string>): string {
    match s
    case None => "null"
    case Some(text) => text
  }

  /** `FORMAT_URL`: the URL in double quotes. */
  function UrlToken(url: string): string {
    "\"" + url + "\""
  }

  /** `FORMAT_METHOD` applied to the upper-cased method. */
  function MethodToken(httpMethod: string): string {
    "-X " + ToUpper(httpMethod)
  }

  /** `FORMAT_HEADER`: `-H "name:value"`, no space after the colon. */
  function HeaderToken(h: Header): string {
    "-H \"" + Show(h.Name()) + ":" + Show(h.Value()) + "\""
  }

  /** One header token per header, in list order. */
  function HeaderTokens(headers: seq<Header>): seq<string> {
    seq(|headers|, i requires 0 <= i < |headers| => HeaderToken(headers[i]))
  }

  /** `FORMAT_BODY`: the raw text in single quotes. */
  function BodyToken(text: string): string {
    "-d '" + text + "'"
  }

  /** The token of a body whose read threw carries the exception's description. */
  lemma ReadFailureToken(exception: string)
    ensures BodyToken(BodyAsString(ReadFailed(exception))) == "-d 'Error while reading body: " + exception + "'"
  {
    assert "-d '" + ("Error while reading body: " + exception) + "'"
        == "-d 'Error while reading body: " + exception + "'";
  }

  /** The `Content-Type` header inferred from the body, emitted only when the
      body declares a type and no header is named exactly `Content-Type`. */
  function InferredContentType(contentType: Option<string>, headers: seq<Header>): seq<string> {
    if contentType.Some? && !HasName(headers, CONTENT_TYPE)
    then [HeaderToken(Header(Some(CONTENT_TYPE), contentType))]
    else []
  }

  function CompressedTokens(compressed: bool): seq<string> {
    if compressed then [COMPRESSED] else []
  }

  /** The token order of the generators that put the URL last: `curl`, the
      method, the headers, the inferred content type, the body tokens,
      `--compressed`, the URL. */
  function UrlLast(httpMethod: string, headers: seq<Header>, contentType: Option<string>,
                   bodyTokens: seq<string>, compressed: bool, url: string): seq<string>
  {
    [CURL, MethodToken(httpMethod)] + HeaderTokens(headers) + InferredContentType(contentType, headers)
    + bodyTokens + CompressedTokens(compressed) + [UrlToken(url)]
  }

  /** Body tokens that cannot be mistaken for a header token or for `--compressed`. */
  predicate PlainBodyTokens(bodyTokens: seq<string>) {
    forall j :: 0 <= j < |bodyTokens| ==> !StartsWith(bodyTokens[j], "-H ") && bodyTokens[j] != COMPRESSED
  }

  /** Where each token of the URL-last order sits. */
  lemma UrlLastPositions(httpMethod: string, headers: seq<Header>, contentType: Option<string>,
                         bodyTokens: seq<string>, compressed: bool, url: string)
    ensures var ts := UrlLast(httpMethod, headers, contentType, bodyTokens, compressed, url);
            var m := 2 + |headers| + |InferredContentType(contentType, headers)|;
            && |ts| == m + |bodyTokens| + (if compressed then 1 else 0) + 1
            && ts[0] == CURL && ts[1] == MethodToken(httpMethod)
            && (forall i :: 0 <= i < |headers| ==> ts[2 + i] == HeaderToken(headers[i]))
            && (forall j :: 0 <= j < |bodyTokens| ==> ts[m + j] == bodyTokens[j])
            && ts[|ts| - 1] == UrlToken(url)
  {
    var front := [CURL, MethodToken(httpMethod)] + HeaderTokens(headers);
    assert |front| == 2 + |headers|;
    var ts := UrlLast(httpMethod, headers, contentType, bodyTokens, compressed, url);
    var rest := InferredContentType(contentType, headers) + bodyTokens
                + CompressedTokens(compressed) + [UrlToken(url)];
    assert ts == front + rest;
    forall i | 0 <= i < |headers| ensures ts[2 + i] == HeaderToken(headers[i]) {
      assert ts[2 + i] == front[2 + i] == HeaderTokens(headers)[i];
    }
    UrlLastBody(httpMethod, headers, contentType, bodyTokens, compressed, url,
                2 + |headers| + |InferredContentType(contentType, headers)|);
  }

  /** The inferred header token spelled out. */
  lemma ContentTypeHeaderText(contentType: string)
    ensures "-H \"" + CONTENT_TYPE + ":" + contentType + "\"" == "-H \"Content-Type:" + contentType + "\""
  {
    assert "-H \"" + CONTENT_TYPE + ":" == "-H \"Content-Type:";
  }

  /** A declared body type with no header named exactly `Content-Type`
      yields the single token `-H "Content-Type:<type>"`; otherwise nothing
      is inferred. */
  lemma InferredHeaderText(contentType: Option<string>, headers: seq<Header>)
    ensures contentType.Some? && !HasName(headers, CONTENT_TYPE) ==>
              InferredContentType(contentType, headers) == ["-H \"Content-Type:" + contentType.value + "\""]
    ensures contentType.None? || HasName(headers, CONTENT_TYPE) ==> InferredContentType(contentType, headers) == []
  {
    if contentType.Some? && !HasName(headers, CONTENT_TYPE) {
      ContentTypeHeaderText(contentType.value);
    }
  }

  /** The body tokens of the URL-last order sit from index `m` on, and only
      `--compressed` and the URL follow them. */
  lemma UrlLastBody(httpMethod: string, headers: seq<Header>, contentType: Option<string>,
                    bodyTokens: seq<string>, compressed: bool, url: string, m: nat)
    requires m == 2 + |headers| + |InferredContentType(contentType, headers)|
    ensures var ts := UrlLast(httpMethod, headers, contentType, bodyTokens, compressed, url);
            && |ts| == m + |bodyTokens| + (if compressed then 1 else 0) + 1
            && forall j :: 0 <= j < |bodyTokens| ==> ts[m + j] == bodyTokens[j]
  {
    var front := [CURL, MethodToken(httpMethod)] + HeaderTokens(headers)
                 + InferredContentType(contentType, headers);
    assert |front| == m;
    var tail := CompressedTokens(compressed) + [UrlToken(url)];
    var ts := UrlLast(httpMethod, headers, contentType, bodyTokens, compressed, url);
    assert ts == front + bodyTokens + tail;
  }

  /** The token right after the headers is a header token exactly when a
      `Content-Type` is inferred, and then it carries the body's type. */
  lemma {:induction false} UrlLastContentType(httpMethod: string, headers: seq<Header>, contentType: Option<string>,
                                              bodyTokens: seq<string>, compressed: bool, url: string)
    requires PlainBodyTokens(bodyTokens)
    ensures var ts := UrlLast(httpMethod, headers, contentType, bodyTokens, compressed, url);
            var k := 2 + |headers|;
            && k < |ts|
            && (StartsWith(ts[k], "-H ") <==> contentType.Some? && !HasName(headers, CONTENT_TYPE))
            && (contentType.Some? && !HasName(headers, CONTENT_TYPE) ==>
                  ts[k] == "-H \"" + CONTENT_TYPE + ":" + contentType.value + "\"")
  {
    var ts := UrlLast(httpMethod, headers, contentType, bodyTokens, compressed, url);
    var k := 2 + |headers|;
    UrlLastPositions(httpMethod, headers, contentType, bodyTokens, compressed, url);
    if !(contentType.Some? && !HasName(headers, CONTENT_TYPE)) {
      if bodyTokens != [] {
        assert ts[k] == bodyTokens[0];
      } else if compressed {
        assert ts[k] == COMPRESSED && ts[k][1] == '-';
      } else {
        assert ts[k] == UrlToken(url) && ts[k][0] == QUOTE;
      }
    }
  }

  /** `--compressed` appears exactly when the flag is set, and then it is the
      token just before the URL. */
  lemma {:induction false} UrlLastCompressed(httpMethod: string, headers: seq<Header>, contentType: Option<string>,
                                             bodyTokens: seq<string>, compressed: bool, url: string)
    requires PlainBodyTokens(bodyTokens)
    ensures var ts := UrlLast(httpMethod, headers, contentType, bodyTokens, compressed, url);
            && (COMPRESSED in ts <==> compressed)
            && (compressed ==> ts[|ts| - 2] == COMPRESSED)
  {
    var ts := UrlLast(httpMethod, headers, contentType, bodyTokens, compressed, url);
    var m := 2 + |headers| + |InferredContentType(contentType, headers)|;
    UrlLastPositions(httpMethod, headers, contentType, bodyTokens, compressed, url);
    if !compressed {
      assert COMPRESSED[1] == '-' && !StartsWith(COMPRESSED, "-H ");
      forall i | 0 <= i < |ts| ensures ts[i] != COMPRESSED {
        if i < 2 {
          assert ts[i] == CURL || ts[i][1] == 'X';
        } else if i < 2 + |headers| {
          assert StartsWith(ts[i], "-H ");
        } else if i < m {
          assert StartsWith(ts[i], "-H ");
        } else if i < m + |bodyTokens| {
          assert ts[i] == bodyTokens[i - m];
        } else {
          assert ts[i] == UrlToken(url) && ts[i][0] == QUOTE;
        }
      }
    }
  }

  /** The joined command starts with `curl`, the delimiter and the method,
      and ends with the delimiter and the quoted URL. */
  lemma {:induction false} UrlLastFrame(delimiter: string, httpMethod: string, headers: seq<Header>,
                                        contentType: Option<string>, bodyTokens: seq<string>,
                                        compressed: bool, url: string)
    ensures var text := Join(delimiter, UrlLast(httpMethod, headers, contentType, bodyTokens, compressed, url));
            && StartsWith(text, "curl" + delimiter + "-X " + ToUpper(httpMethod) + delimiter)
            && EndsWith(text, delimiter + "\"" + url + "\"")
  {
    var ts := UrlLast(httpMethod, headers, contentType, bodyTokens, compressed, url);
    UrlLastPositions(httpMethod, headers, contentType, bodyTokens, compressed, url);
    JoinFrame(delimiter, ts);
    assert ts[0] + delimiter + ts[1] + delimiter == "curl" + delimiter + "-X " + ToUpper(httpMethod) + delimiter;
    assert delimiter + ts[|ts| - 1] == delimiter + "\"" + url + "\"";
  }

  /** A `Content-Type` header is inferred: the body declares a type and no
      request header is named exactly `Content-Type`. */
  predicate InfersContentType(request: Request) {
    ContentTypeOf(request.body).Some?
    && forall i :: 0 <= i < |request.headers| ==> request.headers[i].name != CONTENT_TYPE
  }

  lemma InferredContentTypeOf(request: Request)
    ensures InferredContentType(ContentTypeOf(request.body), ToHeaders(request.headers))
         == if InfersContentType(request)
            then ["-H \"" + CONTENT_TYPE + ":" + ContentTypeOf(request.body).value + "\""]
            else []
  {
    ToHeadersHasName(request.headers, CONTENT_TYPE);
  }

  /** `InfersContentType` is the condition `UrlLast` tests on the headers. */
  lemma InfersContentTypeIff(request: Request)
    ensures InfersContentType(request)
        <==> ContentTypeOf(request.body).Some? && !HasName(ToHeaders(request.headers), CONTENT_TYPE)
  {
    ToHeadersHasName(request.headers, CONTENT_TYPE);
  }
}
