/** The `curl_generator` library's generator: every body is read as text and
    sent with `-d`, so `build` always succeeds. */
module LibraryGenerator {
  import opened Wrappers
  import opened Text
  import opened Joining
  import opened HeaderModel
  import opened Requests
  import opened CurlFormat

  /** `-d '<text>'` for a present body (a failed read leaves a diagnostic), nothing otherwise. */
  function BodyTokens(body: Option<Body>): seq<string> {
    if body.Some? then [BodyToken(BodyAsString(body.value.content))] else []
  }

  /** The tokens `build` collects, in order. */
  function Tokens(request: Request): seq<string> {
    UrlLast(request.httpMethod, ToHeaders(request.headers), ContentTypeOf(request.body),
            BodyTokens(request.body), Compressed(request.headers), request.url)
  }

  /** What `CurlGenerator(request, delimiter).build()` returns. */
  function CommandLine(request: Request, delimiter: string): string {
    Join(delimiter, Tokens(request))
  }

  class CurlGenerator {
    const request: Request
    const delimiter: string
    const url: string
    const httpMethod: string
    var contentType: Option<string>
    var body: Option<string>
    var headers: seq<Header>
    var compressed: bool

    /** The fields hold what `init` derives from `request`. */
    ghost predicate Valid()
      reads this
    {
      && url == request.url
      && httpMethod == request.httpMethod
      && contentType == ContentTypeOf(request.body)
      && body == (if request.body.Some? then Some(BodyAsString(request.body.value.content)) else None)
      && headers == ToHeaders(request.headers)
      && compressed == Compressed(request.headers)
    }

    /** `init`: read the body and its type, copy the headers in order and
        note whether one of them asks for gzip. */
    constructor (request: Request, delimiter: string)
      ensures this.request == request && this.delimiter == delimiter
      ensures Valid()
    {
      this.request := request;
      this.delimiter := delimiter;
      url := request.url;
      httpMethod := request.httpMethod;
      contentType := None;
      body := None;
      headers := [];
      compressed := false;
      new;
      if request.body.Some? {
        var rb := request.body.value;
        contentType := rb.contentType;
        body := Some(BodyAsString(rb.content));
      }
      var fields := request.headers;
      var i := 0;
      while i < |fields|
        invariant 0 <= i <= |fields|
        invariant headers == ToHeaders(fields[..i])
        invariant compressed == Compressed(fields[..i])
        invariant contentType == ContentTypeOf(request.body)
        invariant body == (if request.body.Some? then Some(BodyAsString(request.body.value.content)) else None)
      {
        var f := fields[i];
        if EqualsIgnoreCase(ACCEPT_ENCODING, f.name) && EqualsIgnoreCase("gzip", f.value) {
          compressed := true;
        }
        headers := headers + [Header(Some(f.name), Some(f.value))];
        assert fields[..i + 1][..i] == fields[..i];
        assert fields[..i + 1][i] == f;
        i := i + 1;
      }
      assert fields[..i] == fields;
    }

    /** `build`: append the tokens in their fixed order, then join them. */
    method Build() returns (r: string)
      requires Valid()
      ensures r == CommandLine(request, delimiter)
    {
      var parts: seq<string> := [];
      parts := parts + [CURL];
      parts := parts + [MethodToken(httpMethod)];
      var i := 0;
      while i < |headers|
        invariant 0 <= i <= |headers|
        invariant parts == [CURL, MethodToken(httpMethod)] + HeaderTokens(headers[..i])
      {
        parts := parts + [HeaderToken(headers[i])];
        assert HeaderTokens(headers[..i + 1]) == HeaderTokens(headers[..i]) + [HeaderToken(headers[i])];
        i := i + 1;
      }
      assert headers[..i] == headers;
      var hasContentType := ContainsName(CONTENT_TYPE, headers);
      if contentType.Some? && !hasContentType {
        parts := parts + [HeaderToken(Header(Some(CONTENT_TYPE), contentType))];
      }
      if body.Some? {
        parts := parts + [BodyToken(body.value)];
      }
      if compressed {
        parts := parts + [COMPRESSED];
      }
      parts := parts + [UrlToken(url)];
      assert parts == Tokens(request);
      r := JoinTokens(delimiter, parts);
    }
  }

  /** `-d` appears, just before the optional `--compressed` and the URL,
      exactly when the request has a body; the URL is always last. */
  lemma BodyTokenIff(request: Request)
    ensures var ts := Tokens(request);
            var m := 2 + |request.headers| + (if InfersContentType(request) then 1 else 0);
            && |ts| == m + (if request.body.Some? then 1 else 0) + (if Compressed(request.headers) then 1 else 0) + 1
            && (request.body.Some? ==> ts[m] == "-d '" + BodyAsString(request.body.value.content) + "'")
            && ts[|ts| - 1] == "\"" + request.url + "\""
  {
    InferredContentTypeOf(request);
    UrlLastPositions(request.httpMethod, ToHeaders(request.headers), ContentTypeOf(request.body),
                     BodyTokens(request.body), Compressed(request.headers), request.url);
  }

  /** A body whose read throws does not stop the command: the `-d` token
      sits in its usual slot and carries the exception's description instead
      of the content, and `--compressed` and the URL still follow. */
  lemma ReadFailureFallback(request: Request)
    requires request.body.Some? && request.body.value.content.ReadFailed?
    ensures var ts := Tokens(request);
            var m := 2 + |request.headers| + (if InfersContentType(request) then 1 else 0);
            && |ts| == m + 1 + (if Compressed(request.headers) then 1 else 0) + 1
            && ts[m] == "-d 'Error while reading body: " + request.body.value.content.exception + "'"
            && ts[|ts| - 1] == "\"" + request.url + "\""
  {
    BodyTokenIff(request);
    ReadFailureToken(request.body.value.content.exception);
  }

  /** A body token never looks like a header or like `--compressed`. */
  lemma BodyTokensArePlain(body: Option<Body>)
    ensures PlainBodyTokens(BodyTokens(body))
  {
    if body.Some? {
      var t := BodyTokens(body)[0];
      assert t[1] == 'd';
    }
  }

  /** Headers are copied in request order, duplicates kept, after `curl` and
      the upper-cased method. */
  lemma HeadersInOrder(request: Request)
    ensures var ts := Tokens(request);
            && |ts| >= 3 + |request.headers|
            && ts[0] == "curl" && ts[1] == "-X " + ToUpper(request.httpMethod)
            && forall i :: 0 <= i < |request.headers| ==>
                 ts[2 + i] == "-H \"" + request.headers[i].name + ":" + request.headers[i].value + "\""
  {
    UrlLastPositions(request.httpMethod, ToHeaders(request.headers), ContentTypeOf(request.body),
                     BodyTokens(request.body), Compressed(request.headers), request.url);
  }

  /** The token after the headers is a header token exactly when the body
      declares a type and no header is named exactly `Content-Type`. */
  lemma ContentTypeInference(request: Request)
    ensures var ts := Tokens(request);
            var k := 2 + |request.headers|;
            && k < |ts|
            && (StartsWith(ts[k], "-H ") <==> InfersContentType(request))
            && (InfersContentType(request) ==>
                  ts[k] == "-H \"Content-Type:" + ContentTypeOf(request.body).value + "\"")
  {
    BodyTokensArePlain(request.body);
    InfersContentTypeIff(request);
    assert |ToHeaders(request.headers)| == |request.headers|;
    UrlLastContentType(request.httpMethod, ToHeaders(request.headers), ContentTypeOf(request.body),
                       BodyTokens(request.body), Compressed(request.headers), request.url);
    if InfersContentType(request) {
      ContentTypeHeaderText(ContentTypeOf(request.body).value);
    }
  }

  /** `--compressed` appears exactly when some header is `Accept-Encoding:
      gzip` (ignoring case), as the token before the URL. */
  lemma CompressedFlag(request: Request)
    ensures var ts := Tokens(request);
            && (COMPRESSED in ts <==> Compressed(request.headers))
            && (Compressed(request.headers) ==> ts[|ts| - 2] == COMPRESSED)
  {
    BodyTokensArePlain(request.body);
    UrlLastCompressed(request.httpMethod, ToHeaders(request.headers), ContentTypeOf(request.body),
                      BodyTokens(request.body), Compressed(request.headers), request.url);
  }

  /** The joined command starts with `curl` and the method and ends with the URL. */
  lemma CommandFrame(request: Request, delimiter: string)
    ensures var text := CommandLine(request, delimiter);
            && StartsWith(text, "curl" + delimiter + "-X " + ToUpper(request.httpMethod) + delimiter)
            && EndsWith(text, delimiter + "\"" + request.url + "\"")
  {
    UrlLastFrame(delimiter, request.httpMethod, ToHeaders(request.headers), ContentTypeOf(request.body),
                 BodyTokens(request.body), Compressed(request.headers), request.url);
  }

  /** Without headers and body the command is `curl -X <METHOD> "<url>"`. */
  lemma BareRequest(request: Request)
    requires request.headers == [] && request.body.None?
    ensures CommandLine(request, EMPTY_SPACE) == "curl -X " + ToUpper(request.httpMethod) + " \"" + request.url + "\""
  {
    assert !Compressed(request.headers);
    var ts := Tokens(request);
    var u := ToUpper(request.httpMethod);
    assert ts == ["curl", "-X " + u, "\"" + request.url + "\""];
    assert ts[..2][..1] == ["curl"];
    assert Join(EMPTY_SPACE, ts[..2]) == "curl" + EMPTY_SPACE + ts[1];
    assert Join(EMPTY_SPACE, ts) == Join(EMPTY_SPACE, ts[..2]) + EMPTY_SPACE + ts[2];
    calc {
      Join(EMPTY_SPACE, ts);
      "curl" + " " + ("-X " + u) + " " + ("\"" + request.url + "\"");
      { assert "curl" + " " + "-X " == "curl -X "; }
      "curl -X " + u + " \"" + request.url + "\"";
    }
  }
}
