/** The `curl_interceptor` generator: the URL goes right after `curl` (so
    that Postman imports it), every body is read as text, and no
    `--compressed` flag is ever added. */
module InterceptorGenerator {
  import opened Wrappers
  import opened Text
  import opened Joining
  import opened HeaderModel
  import opened Requests
  import opened CurlFormat

  function BodyTokens(body: Option<Body>): seq<string> {
    if body.Some? then [BodyToken(BodyAsString(body.value.content))] else []
  }

  /** The tokens `build` collects, in order: `curl`, the URL, the method, the
      headers, the inferred `Content-Type`, the body. */
  function Tokens(request: Request): seq<string> {
    var headers := ToHeaders(request.headers);
    var contentType := ContentTypeOf(request.body);
    [CURL, UrlToken(request.url), MethodToken(request.httpMethod)] + HeaderTokens(headers)
    + InferredContentType(contentType, headers) + BodyTokens(request.body)
  }

  /** What `CurlGenerator(request, delimiter).build()` returns. */
  function CommandLine(request: Request, delimiter: string): string {
    Join(delimiter, Tokens(request))
  }

  class CurlGenerator {
    const request: Request
    const delimiter: string
    const url: string
    const httpMethod: string
    var contentType: Option<string>
    var body: Option<string>
    var headers: seq<Header>

    /** The fields hold what `init` derives from `request`. */
    ghost predicate Valid()
      reads this
    {
      && url == request.url
      && httpMethod == request.httpMethod
      && contentType == ContentTypeOf(request.body)
      && body == (if request.body.Some? then Some(BodyAsString(request.body.value.content)) else None)
      && headers == ToHeaders(request.headers)
    }

    /** `init`: read the body and its type, copy the headers in order. */
    constructor (request: Request, delimiter: string)
      ensures this.request == request && this.delimiter == delimiter
      ensures Valid()
    {
      this.request := request;
      this.delimiter := delimiter;
      url := request.url;
      httpMethod := request.httpMethod;
      contentType := None;
      body := None;
      headers := [];
      new;
      if request.body.Some? {
        var rb := request.body.value;
        contentType := rb.contentType;
        body := Some(BodyAsString(rb.content));
      }
      var fields := request.headers;
      var i := 0;
      while i < |fields|
        invariant 0 <= i <= |fields|
        invariant headers == ToHeaders(fields[..i])
        invariant contentType == ContentTypeOf(request.body)
        invariant body == (if request.body.Some? then Some(BodyAsString(request.body.value.content)) else None)
      {
        var f := fields[i];
        headers := headers + [Header(Some(f.name), Some(f.value))];
        assert fields[..i + 1][..i] == fields[..i];
        assert fields[..i + 1][i] == f;
        i := i + 1;
      }
      assert fields[..i] == fields;
    }

    /** `build`: append the tokens in their fixed order, then join them. */
    method Build() returns (r: string)
      requires Valid()
      ensures r == CommandLine(request, delimiter)
    {
      var parts: seq<string> := [];
      parts := parts + [CURL];
      parts := parts + [UrlToken(url)];
      parts := parts + [MethodToken(httpMethod)];
      var i := 0;
      while i < |headers|
        invariant 0 <= i <= |headers|
        invariant parts == [CURL, UrlToken(url), MethodToken(httpMethod)] + HeaderTokens(headers[..i])
      {
        parts := parts + [HeaderToken(headers[i])];
        assert HeaderTokens(headers[..i + 1]) == HeaderTokens(headers[..i]) + [HeaderToken(headers[i])];
        i := i + 1;
      }
      assert headers[..i] == headers;
      var hasContentType := ContainsName(CONTENT_TYPE, headers);
      if contentType.Some? && !hasContentType {
        parts := parts + [HeaderToken(Header(Some(CONTENT_TYPE), contentType))];
      }
      if body.Some? {
        parts := parts + [BodyToken(body.value)];
      }
      assert parts == Tokens(request);
      r := JoinTokens(delimiter, parts);
    }
  }

  /** Where each token sits: `curl`, the URL, the upper-cased method, the
      headers in request order, then the optional `Content-Type` and `-d`. */
  lemma Positions(request: Request)
    ensures var ts := Tokens(request);
            var m := 3 + |request.headers| + (if InfersContentType(request) then 1 else 0);
            && |ts| == m + (if request.body.Some? then 1 else 0)
            && ts[0] == "curl" && ts[1] == "\"" + request.url + "\""
            && ts[2] == "-X " + ToUpper(request.httpMethod)
            && (forall i :: 0 <= i < |request.headers| ==>
                  ts[3 + i] == "-H \"" + request.headers[i].name + ":" + request.headers[i].value + "\"")
            && (InfersContentType(request) ==>
                  ts[3 + |request.headers|] == "-H \"Content-Type:" + ContentTypeOf(request.body).value + "\"")
            && (request.body.Some? ==> ts[m] == "-d '" + BodyAsString(request.body.value.content) + "'")
  {
    InferredContentTypeOf(request);
  }

  /** The token after the headers is a header token exactly when a
      `Content-Type` is inferred. */
  lemma ContentTypeInference(request: Request)
    ensures var ts := Tokens(request);
            var k := 3 + |request.headers|;
            (k < |ts| && StartsWith(ts[k], "-H ")) <==> InfersContentType(request)
  {
    Positions(request);
    var ts := Tokens(request);
    var k := 3 + |request.headers|;
    if !InfersContentType(request) && request.body.Some? {
      assert ts[k][1] == 'd';
    }
  }

  /** The last token is a `-d '...'` body token exactly when the request has a body. */
  lemma BodyLastIff(request: Request)
    ensures var ts := Tokens(request);
            StartsWith(ts[|ts| - 1], "-d '") <==> request.body.Some?
  {
    Positions(request);
    var ts := Tokens(request);
    var last := ts[|ts| - 1];
    if request.body.None? {
      assert last[1] == 'X' || last[1] == 'H';
    }
  }

  /** Unlike the other generators this one never emits `--compressed`, even
      for `Accept-Encoding: gzip`. */
  lemma {:induction false} NeverCompressed(request: Request)
    ensures COMPRESSED !in Tokens(request)
  {
    Positions(request);
    var ts := Tokens(request);
    var m := 3 + |request.headers| + (if InfersContentType(request) then 1 else 0);
    assert COMPRESSED[1] == '-';
    forall i | 0 <= i < |ts| ensures ts[i] != COMPRESSED {
      if i == 0 {
      } else if i == 1 {
        assert ts[i][0] == QUOTE;
      } else if i < m {
        assert ts[i][1] == 'X' || ts[i][1] == 'H';
      } else {
        assert ts[i][1] == 'd';
      }
    }
  }

  /** The joined command starts with `curl`, the delimiter and the quoted URL. */
  lemma CommandStart(request: Request, delimiter: string)
    ensures StartsWith(CommandLine(request, delimiter), "curl" + delimiter + "\"" + request.url + "\"" + delimiter)
  {
    var ts := Tokens(request);
    assert ts[0] == CURL && ts[1] == UrlToken(request.url) && |ts| >= 3;
    JoinFrame(delimiter, ts);
    assert CURL + delimiter + UrlToken(request.url) + delimiter == "curl" + delimiter + "\"" + request.url + "\"" + delimiter;
  }
}
