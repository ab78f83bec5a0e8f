/** The generator of package `curl.generator`: body-kind selection in `init`,
    url-encoded form, multipart, binary and raw body tokens, `--compressed`,
    and the quoted URL as the last token. */
module Generator {
  import opened Wrappers
  import opened Text
  import opened Joining
  import opened HeaderModel
  import opened Requests
  import opened CurlFormat

  const FORM_URL_ENCODED: string := "application/x-www-form-urlencoded"
  const MULTIPART_FORM_DATA: string := "multipart/form-data"
  const OCTET_STREAM: string := "application/octet-stream"
  /** `FORMAT_BINARY_BODY` with the placeholder file name: the bytes are never read. */
  const BINARY_BODY_TOKEN: string := "--data-binary @filename"
  const NAME_PREFIX: string := "name=\""
  const FILENAME_PREFIX: string := "filename=\""
  /** A part is a file part when its disposition mentions this. */
  const FILENAME_MARK: string := "filename="
  /** What `last()` throws for a part whose header list is present but empty. */
  const EMPTY_HEADERS: string := "java.util.NoSuchElementException: Collection is empty."

  /** Which of the four body fields `init` sets, if any. */
  datatype BodyChoice =
    | NoBody
    | UrlEncodedForm(pairs: seq<EncodedPair>)
    | MultipartForm(parts: seq<Part>)
    | Binary
    | Raw(text: string)

  /** The selection in `init`, tried in this order: form, multipart, binary, raw. */
  function Choose(body: Option<Body>): BodyChoice {
    match body
    case None => NoBody
    case Some(b) =>
      if ContentTypeContains(b.contentType, FORM_URL_ENCODED) && b.kind.FormBody? then UrlEncodedForm(b.kind.pairs)
      else if ContentTypeContains(b.contentType, MULTIPART_FORM_DATA) && b.kind.MultipartBody? then MultipartForm(b.kind.parts)
      else if ContentTypeContains(b.contentType, OCTET_STREAM) then Binary
      else Raw(BodyAsString(b.content))
  }

  /** `FORMAT_URL_ENCODED_BODY`: the encoded name and value, copied verbatim. */
  function FormToken(pair: EncodedPair): string {
    "--data-urlencode \"" + pair.encodedName + "=" + pair.encodedValue + "\""
  }

  function FormTokens(pairs: seq<EncodedPair>): seq<string> {
    seq(|pairs|, i requires 0 <= i < |pairs| => FormToken(pairs[i]))
  }

  /** `FORMAT_MULTIPART_FORM_BODY`. */
  function MultipartToken(name: string, value: string): string {
    "-F \"" + name + "=" + value + "\""
  }

  /** The text of a trimmed `prefix...` segment once the prefix and a closing
      quote are removed, trimmed again. */
  function Unquoted(segment: string, prefix: string): string {
    Trim(RemoveSuffix(RemovePrefix(segment, prefix), "\""), IsWhitespace)
  }

  /** The part name: from the last `;`-segment that, trimmed, starts with
      `name="`; the empty string when there is none. */
  function DispositionName(segments: seq<string>): string
    decreases |segments|
  {
    if segments == [] then ""
    else
      var s := Trim(segments[|segments| - 1], IsWhitespace);
      if StartsWith(s, NAME_PREFIX) then Unquoted(s, NAME_PREFIX)
      else DispositionName(segments[..|segments| - 1])
  }

  /** The value of a file part: `@` and the file name from the last segment
      that, trimmed, starts with `filename="`; the empty string when there is none. */
  function DispositionFile(segments: seq<string>): string
    decreases |segments|
  {
    if segments == [] then ""
    else
      var s := Trim(segments[|segments| - 1], IsWhitespace);
      if StartsWith(s, FILENAME_PREFIX) then "@" + Unquoted(s, FILENAME_PREFIX)
      else DispositionFile(segments[..|segments| - 1])
  }

  /** The token of one multipart part: none for a part without headers, an
      exception for an empty header list, otherwise `-F "name=value"` from
      the value of the part's last header. */
  function PartToken(part: Part): Result<Option<string>, string> {
    match part.headers
    case None => Success(None)
    case Some(fields) =>
      if fields == [] then Failure(EMPTY_HEADERS)
      else
        var disposition := fields[|fields| - 1].value;
        var isFile := Contains(disposition, FILENAME_MARK);
        var segments := Split(disposition, ';');
        var value := if isFile then DispositionFile(segments) else BodyAsString(part.body);
        Success(Some(MultipartToken(DispositionName(segments), value)))
  }

  /** The part tokens in part order; the first exception ends the build. */
  function PartTokens(parts: seq<Part>): Result<seq<string>, string>
    decreases |parts|
  {
    if parts == [] then Success([]) else LoopStep(PartTokens(parts[..|parts| - 1]), PartToken(parts[|parts| - 1]))
  }

  /** One turn of the multipart loop: a failure so far or from the part ends
      the loop; otherwise the part's token, if any, is appended. */
  function LoopStep(sofar: Result<seq<string>, string>, part: Result<Option<string>, string>): Result<seq<string>, string> {
    if sofar.Failure? then sofar
    else if part.Failure? then Failure(part.error)
    else if part.value.None? then sofar
    else Success(sofar.value + [part.value.value])
  }

  /** The body tokens of the branch `init` selected. */
  function BodyTokens(choice: BodyChoice): Result<seq<string>, string> {
    match choice
    case NoBody => Success([])
    case UrlEncodedForm(pairs) => Success(FormTokens(pairs))
    case MultipartForm(parts) => PartTokens(parts)
    case Binary => Success([BINARY_BODY_TOKEN])
    case Raw(text) => Success([BodyToken(text)])
  }

  /** The tokens `build` assembles for a request, or the exception it throws. */
  function Tokens(request: Request): Result<seq<string>, string> {
    match BodyTokens(Choose(request.body))
    case Failure(e) => Failure(e)
    case Success(bodyTokens) =>
      Success(UrlLast(request.httpMethod, ToHeaders(request.headers), ContentTypeOf(request.body),
                      bodyTokens, Compressed(request.headers), request.url))
  }

  /** What `CurlGenerator(request, delimiter).build()` returns or throws. */
  function CommandLine(request: Request, delimiter: string): Result<string, string> {
    match Tokens(request)
    case Failure(e) => Failure(e)
    case Success(tokens) => Success(Join(delimiter, tokens))
  }

  /** The loop over the `;`-segments of a disposition, reassigning `name` and `value`. */
  method ParseDisposition(segments: seq<string>, isFile: bool) returns (name: string, value: string)
    ensures name == DispositionName(segments)
    ensures value == if isFile then DispositionFile(segments) else ""
  {
    name := "";
    value := "";
    var i := 0;
    while i < |segments|
      invariant 0 <= i <= |segments|
      invariant name == DispositionName(segments[..i])
      invariant value == if isFile then DispositionFile(segments[..i]) else ""
    {
      var newStr := Trim(segments[i], IsWhitespace);
      assert segments[..i + 1][..i] == segments[..i];
      if StartsWith(newStr, NAME_PREFIX) {
        name := Trim(RemoveSuffix(RemovePrefix(newStr, NAME_PREFIX), "\""), IsWhitespace);
        assert !StartsWith(newStr, FILENAME_PREFIX) by {
          assert newStr[0] == 'n';
        }
      } else if isFile && StartsWith(newStr, FILENAME_PREFIX) {
        value := "@" + Trim(RemoveSuffix(RemovePrefix(newStr, FILENAME_PREFIX), "\""), IsWhitespace);
      }
      i := i + 1;
    }
    assert segments[..i] == segments;
  }

  /** An exception in the first `k` parts is the exception of the whole list. */
  lemma {:induction false} PartTokensFailureSticks(parts: seq<Part>, k: nat)
    requires k <= |parts|
    requires PartTokens(parts[..k]).Failure?
    ensures PartTokens(parts) == PartTokens(parts[..k])
    decreases |parts| - k
  {
    if k < |parts| {
      assert parts[..k + 1][..k] == parts[..k];
      PartTokensFailureSticks(parts, k + 1);
    } else {
      assert parts[..k] == parts;
    }
  }

  /** The multipart loop of `build`: one `-F` token per part that has headers. */
  method AppendParts(parts: seq<string>, ps: seq<Part>) returns (r: Result<seq<string>, string>)
    ensures PartTokens(ps).Failure? ==> r == Failure(PartTokens(ps).error)
    ensures PartTokens(ps).Success? ==> r == Success(parts + PartTokens(ps).value)
  {
    var added := parts;
    var j := 0;
    while j < |ps|
      invariant 0 <= j <= |ps|
      invariant PartTokens(ps[..j]).Success?
      invariant added == parts + PartTokens(ps[..j]).value
    {
      var part := ps[j];
      assert ps[..j + 1][..j] == ps[..j];
      assert ps[..j + 1][j] == part;
      if part.headers.Some? {
        var fields := part.headers.value;
        if |fields| == 0 {
          PartTokensFailureSticks(ps, j + 1);
          return Failure(EMPTY_HEADERS);
        }
        var disposition := fields[|fields| - 1].value;
        var isFile := Contains(disposition, FILENAME_MARK);
        var segments := Split(disposition, ';');
        var name, value := ParseDisposition(segments, isFile);
        if !isFile {
          value := BodyAsString(part.body);
        }
        added := added + [MultipartToken(name, value)];
      }
      j := j + 1;
    }
    assert ps[..j] == ps;
    return Success(added);
  }

  class CurlGenerator {
    const request: Request
    const delimiter: string
    const url: string
    const httpMethod: string
    var headers: seq<Header>
    var contentType: Option<string>
    var body: Option<string>
    var formUrlEncodedBody: Option<seq<EncodedPair>>
    var multipartFormBody: Option<seq<Part>>
    var binaryBody: Option<Body>
    var compressed: bool

    /** The body fields hold the branch `Choose` selects: at most one is set. */
    ghost predicate BodyFieldsValid()
      reads this
    {
      var choice := Choose(request.body);
      && contentType == ContentTypeOf(request.body)
      && formUrlEncodedBody == (if choice.UrlEncodedForm? then Some(choice.pairs) else None)
      && multipartFormBody == (if choice.MultipartForm? then Some(choice.parts) else None)
      && binaryBody == (if choice.Binary? then request.body else None)
      && body == (if choice.Raw? then Some(choice.text) else None)
    }

    /** The fields hold what `init` derives from `request`. */
    ghost predicate Valid()
      reads this
    {
      && url == request.url
      && httpMethod == request.httpMethod
      && headers == ToHeaders(request.headers)
      && compressed == Compressed(request.headers)
      && BodyFieldsValid()
    }

    /** `init`: select the body branch, copy the headers in order and note
        whether one of them asks for gzip. */
    constructor (request: Request, delimiter: string)
      ensures this.request == request && this.delimiter == delimiter
      ensures Valid()
    {
      this.request := request;
      this.delimiter := delimiter;
      url := request.url;
      httpMethod := request.httpMethod;
      headers := [];
      contentType := None;
      body := None;
      formUrlEncodedBody := None;
      multipartFormBody := None;
      binaryBody := None;
      compressed := false;
      new;
      if request.body.Some? {
        var rb := request.body.value;
        contentType := rb.contentType;
        if ContentTypeContains(contentType, FORM_URL_ENCODED) && rb.kind.FormBody? {
          formUrlEncodedBody := Some(rb.kind.pairs);
        } else if ContentTypeContains(contentType, MULTIPART_FORM_DATA) && rb.kind.MultipartBody? {
          multipartFormBody := Some(rb.kind.parts);
        } else if ContentTypeContains(contentType, OCTET_STREAM) {
          binaryBody := Some(rb);
        } else {
          body := Some(BodyAsString(rb.content));
        }
      }
      var fields := request.headers;
      var i := 0;
      while i < |fields|
        invariant 0 <= i <= |fields|
        invariant headers == ToHeaders(fields[..i])
        invariant compressed == Compressed(fields[..i])
        invariant BodyFieldsValid()
      {
        var f := fields[i];
        if EqualsIgnoreCase(ACCEPT_ENCODING, f.name) && EqualsIgnoreCase("gzip", f.value) {
          compressed := true;
        }
        headers := headers + [Header(Some(f.name), Some(f.value))];
        assert fields[..i + 1][..i] == fields[..i];
        assert fields[..i + 1][i] == f;
        i := i + 1;
      }
      assert fields[..i] == fields;
    }

    /** The body part of `build`: the one branch whose field `init` set
        appends its tokens. */
    method AppendBody(parts: seq<string>) returns (r: Result<seq<string>, string>)
      requires Valid()
      ensures BodyTokens(Choose(request.body)).Failure? ==> r == Failure(BodyTokens(Choose(request.body)).error)
      ensures BodyTokens(Choose(request.body)).Success? ==> r == Success(parts + BodyTokens(Choose(request.body)).value)
    {
      if formUrlEncodedBody.Some? {
        var pairs := formUrlEncodedBody.value;
        var added := parts;
        var index := 0;
        while index < |pairs|
          invariant 0 <= index <= |pairs|
          invariant added == parts + FormTokens(pairs[..index])
        {
          added := added + [FormToken(pairs[index])];
          assert FormTokens(pairs[..index + 1]) == FormTokens(pairs[..index]) + [FormToken(pairs[index])];
          index := index + 1;
        }
        assert pairs[..index] == pairs;
        return Success(added);
      } else if multipartFormBody.Some? {
        r := AppendParts(parts, multipartFormBody.value);
      } else if binaryBody.Some? {
        return Success(parts + [BINARY_BODY_TOKEN]);
      } else if body.Some? {
        return Success(parts + [BodyToken(body.value)]);
      } else {
        assert Choose(request.body) == NoBody;
        assert parts + [] == parts;
        return Success(parts);
      }
    }

    /** `build`: append the tokens in their fixed order, then join them. */
    method Build() returns (r: Result<string, string>)
      requires Valid()
      ensures r == CommandLine(request, delimiter)
    {
      var parts: seq<string> := [];
      parts := parts + [CURL];
      parts := parts + [MethodToken(httpMethod)];
      var i := 0;
      while i < |headers|
        invariant 0 <= i <= |headers|
        invariant parts == [CURL, MethodToken(httpMethod)] + HeaderTokens(headers[..i])
      {
        parts := parts + [HeaderToken(headers[i])];
        assert HeaderTokens(headers[..i + 1]) == HeaderTokens(headers[..i]) + [HeaderToken(headers[i])];
        i := i + 1;
      }
      assert headers[..i] == headers;
      var hasContentType := ContainsName(CONTENT_TYPE, headers);
      if contentType.Some? && !hasContentType {
        parts := parts + [HeaderToken(Header(Some(CONTENT_TYPE), contentType))];
      }
      assert parts == [CURL, MethodToken(httpMethod)] + HeaderTokens(headers) + InferredContentType(contentType, headers);
      var withBody := AppendBody(parts);
      if withBody.Failure? {
        return Failure(withBody.error);
      }
      ghost var bodyTokens := BodyTokens(Choose(request.body)).value;
      parts := withBody.value;
      if compressed {
        parts := parts + [COMPRESSED];
      }
      parts := parts + [UrlToken(url)];
      assert parts == UrlLast(httpMethod, headers, contentType, bodyTokens, compressed, url);
      var text := JoinTokens(delimiter, parts);
      return Success(text);
    }
  }
}
