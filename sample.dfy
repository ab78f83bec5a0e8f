/** The sample app's `cURLGenerator`: a single-quoting variant that puts the
    URL first, keeps the method's case, reads multipart parts by their
    `Content-Disposition` name, refuses large multipart bodies and guesses a
    JSON `Content-Type` for raw bodies. Read failures are not caught. */
module SampleInterceptor {
  import opened Wrappers
  import opened Text
  import opened Joining
  import opened Requests
  import CurlFormat

  /** Multipart bodies above 100 KiB are not turned into a command. */
  const MAX_MULTIPART_LENGTH: int := 100 * 1024
  const TOO_LARGE: string := "---"
  const CONTENT_DISPOSITION: string := "Content-Disposition"
  const NAME_MARK: string := "name="
  const OCTET_STREAM: string := "application/octet-stream"
  const BINARY_PLACEHOLDER: string := "--data-binary " + "@attach_your_file_in_postman_or_file_binary_data"
  const JSON_CONTENT_TYPE: string := "-H 'Content-Type: application/json'"

  /** The command's tokens (joined by one space), the placeholder for a
      too-large multipart body, or the I/O exception a read threw. */
  datatype Generated = Generated(tokens: seq<string>) | TooLarge | Thrown(exception: string)

  function QuotedUrl(url: string): string {
    "'" + url + "'"
  }

  /** `-X` and the method exactly as the request spells it. */
  function MethodToken(httpMethod: string): string {
    "-X " + httpMethod
  }

  /** `-H 'name: value'`, with a space after the colon. */
  function HeaderToken(f: Field): string {
    "-H '" + f.name + ": " + f.value + "'"
  }

  function HeaderTokens(fields: seq<Field>): seq<string> {
    seq(|fields|, i requires 0 <= i < |fields| => HeaderToken(fields[i]))
  }

  /** `contentTypeFound`: some header is named `Content-Type`, ignoring case. */
  predicate ContentTypeFound(fields: seq<Field>) {
    exists i :: 0 <= i < |fields| && EqualsIgnoreCase(CONTENT_TYPE, fields[i].name)
  }

  /** The HTTP client's `headers[name]`: the value of the last field whose
      name matches ignoring case, null when none does. */
  function LastValue(fields: seq<Field>, name: string): Option<string>
    decreases |fields|
  {
    if fields == [] then None
    else if EqualsIgnoreCase(name, fields[|fields| - 1].name) then Some(fields[|fields| - 1].value)
    else LastValue(fields[..|fields| - 1], name)
  }

  /** A `name=` segment, trimmed of control characters and spaces, with every
      `name=` and every double quote deleted. */
  function CleanName(segment: string): string {
    RemoveAll(RemoveAll(Trim(segment, IsControlOrSpace), NAME_MARK), "\"")
  }

  predicate IsNameSegment(segment: string) {
    StartsWith(Trim(segment, IsControlOrSpace), NAME_MARK)
  }

  /** The name from the first segment that starts with `name=` once trimmed;
      empty when there is none. */
  function FirstName(segments: seq<string>): string
    decreases |segments|
  {
    if segments == [] then ""
    else if IsNameSegment(segments[0]) then CleanName(segments[0])
    else FirstName(segments[1..])
  }

  /** `partsName`: empty unless the part has headers with a `Content-Disposition`. */
  function PartName(part: Part): string {
    if part.headers.None? then ""
    else match LastValue(part.headers.value, CONTENT_DISPOSITION)
      case None => ""
      case Some(disposition) => FirstName(Split(disposition, ';'))
  }

  /** `-F 'name=content'`. */
  function PartToken(name: string, text: string): string {
    "-F '" + name + "=" + text + "'"
  }

  /** One token per part, in order; the first part whose read throws ends the
      command with that exception. */
  function PartTokens(parts: seq<Part>): Result<seq<string>, string>
    decreases |parts|
  {
    if parts == [] then Success([])
    else
      match PartTokens(parts[..|parts| - 1])
      case Failure(e) => Failure(e)
      case Success(tokens) =>
        var last := parts[|parts| - 1];
        match last.body
        case ReadFailed(e) => Failure(e)
        case Read(text) => Success(tokens + [PartToken(PartName(last), text)])
  }

  /** `contentType?.toString() ?: ""`. */
  function ContentTypeString(contentType: Option<string>): string {
    if contentType.Some? then contentType.value else ""
  }

  /** The body's tokens. `parsesAsJson` says whether a JSON object or array
      parser accepts the text. */
  function BodyOutcome(body: Option<Body>, contentTypeFound: bool, parsesAsJson: string -> bool): Generated {
    match body
    case None => Generated([])
    case Some(b) =>
      if b.kind.MultipartBody? then
        if b.kind.contentLength > MAX_MULTIPART_LENGTH then TooLarge
        else match PartTokens(b.kind.parts)
          case Failure(e) => Thrown(e)
          case Success(tokens) => Generated(tokens)
      else if Contains(ContentTypeString(b.contentType), OCTET_STREAM) then Generated([BINARY_PLACEHOLDER])
      else match b.content
        case ReadFailed(e) => Thrown(e)
        case Read(text) =>
          Generated((if !contentTypeFound && parsesAsJson(text) then [JSON_CONTENT_TYPE] else [])
                    + [CurlFormat.BodyToken(text)])
  }

  /** `curl`, the URL, the method and the headers come first. */
  function Head(request: Request): seq<string> {
    [CurlFormat.CURL, QuotedUrl(request.url), MethodToken(request.httpMethod)] + HeaderTokens(request.headers)
  }

  function Generate(request: Request, parsesAsJson: string -> bool): Generated {
    match BodyOutcome(request.body, ContentTypeFound(request.headers), parsesAsJson)
    case Generated(bodyTokens) =>
      Generated(Head(request) + bodyTokens
                + (if Compressed(request.headers) then [CurlFormat.COMPRESSED] else []))
    case TooLarge => TooLarge
    case Thrown(e) => Thrown(e)
  }

  /** What `cURLGenerator(request)` returns or throws. */
  function CurlText(request: Request, parsesAsJson: string -> bool): Result<string, string> {
    match Generate(request, parsesAsJson)
    case Generated(tokens) => Success(Join(" ", tokens))
    case TooLarge => Success(TOO_LARGE)
    case Thrown(e) => Failure(e)
  }

  /** The segment loop: stop at the first `name=` segment. */
  method FindPartName(segments: seq<string>) returns (partsName: string)
    ensures partsName == FirstName(segments)
  {
    partsName := "";
    var i := 0;
    while i < |segments|
      invariant 0 <= i <= |segments|
      invariant FirstName(segments[i..]) == FirstName(segments)
      invariant partsName == ""
    {
      assert segments[i..][0] == segments[i];
      if IsNameSegment(segments[i]) {
        partsName := CleanName(segments[i]);
        break;
      }
      assert segments[i..][1..] == segments[i + 1..];
      i := i + 1;
    }
  }

  /** The multipart loop, appending ` -F '...'` to the command built so far. */
  method AppendParts(curlCmd: string, ghost tokens: seq<string>, parts: seq<Part>) returns (r: Result<string, string>)
    requires tokens != [] && curlCmd == Join(" ", tokens)
    ensures PartTokens(parts).Failure? ==> r == Failure(PartTokens(parts).error)
    ensures PartTokens(parts).Success? ==> r == Success(Join(" ", tokens + PartTokens(parts).value))
  {
    var cmd := curlCmd;
    var j := 0;
    assert tokens + PartTokens(parts[..0]).value == tokens;
    while j < |parts|
      invariant 0 <= j <= |parts|
      invariant PartTokens(parts[..j]).Success?
      invariant cmd == Join(" ", tokens + PartTokens(parts[..j]).value)
    {
      var p := parts[j];
      assert parts[..j + 1][..j] == parts[..j];
      assert parts[..j + 1][j] == p;
      var partsName := "";
      if p.headers.Some? {
        var contentDisposition := LastValue(p.headers.value, CONTENT_DISPOSITION);
        if contentDisposition.Some? {
          var cd := Split(contentDisposition.value, ';');
          partsName := FindPartName(cd);
        }
      }
      if p.body.ReadFailed? {
        FailureSticks(parts, j + 1);
        return Failure(p.body.exception);
      }
      var partsBody := p.body.text;
      ghost var before := tokens + PartTokens(parts[..j]).value;
      JoinSnoc(" ", before, PartToken(partsName, partsBody));
      assert before + [PartToken(partsName, partsBody)] == tokens + PartTokens(parts[..j + 1]).value;
      cmd := cmd + " " + PartToken(partsName, partsBody);
      j := j + 1;
    }
    assert parts[..j] == parts;
    return Success(cmd);
  }

  /** Once a prefix of the parts throws, the whole list does. */
  lemma {:induction false} FailureSticks(parts: seq<Part>, k: nat)
    requires k <= |parts| && PartTokens(parts[..k]).Failure?
    ensures PartTokens(parts) == Failure(PartTokens(parts[..k]).error)
    decreases |parts| - k
  {
    if k < |parts| {
      assert parts[..k + 1][..k] == parts[..k];
      FailureSticks(parts, k + 1);
    } else {
      assert parts[..k] == parts;
    }
  }

  /** How the two header flags grow by one header. */
  lemma HeaderFlagsStep(headers: seq<Field>, index: nat)
    requires index < |headers|
    ensures Compressed(headers[..index + 1]) == (Compressed(headers[..index]) || AcceptsGzip(headers[index]))
    ensures ContentTypeFound(headers[..index + 1])
         == (ContentTypeFound(headers[..index]) || EqualsIgnoreCase(CONTENT_TYPE, headers[index].name))
  {
    var front := headers[..index + 1];
    assert front[..index] == headers[..index];
    assert front[index] == headers[index];
  }

  /** How the header tokens grow by one header. */
  lemma HeaderTokensStep(tokens: seq<string>, headers: seq<Field>, index: nat)
    requires index < |headers|
    ensures tokens + HeaderTokens(headers[..index]) + [HeaderToken(headers[index])]
         == tokens + HeaderTokens(headers[..index + 1])
  {
    assert headers[..index + 1][..index] == headers[..index];
    assert headers[..index + 1][index] == headers[index];
    assert HeaderTokens(headers[..index + 1]) == HeaderTokens(headers[..index]) + [HeaderToken(headers[index])];
  }

  /** The header loop: one ` -H '...'` per header, noting `Accept-Encoding:
      gzip` and any `Content-Type` header on the way. */
  method AppendHeaders(curlCmd: string, ghost tokens: seq<string>, headers: seq<Field>) returns (cmd: string, compressed: bool, contentTypeFound: bool)
    requires tokens != [] && curlCmd == Join(" ", tokens)
    ensures cmd == Join(" ", tokens + HeaderTokens(headers))
    ensures compressed == Compressed(headers)
    ensures contentTypeFound == ContentTypeFound(headers)
  {
    cmd := curlCmd;
    compressed := false;
    contentTypeFound := false;
    var index := 0;
    var count := |headers|;
    assert tokens + HeaderTokens(headers[..0]) == tokens;
    while index < count
      invariant 0 <= index <= count
      invariant compressed == Compressed(headers[..index])
      invariant contentTypeFound == ContentTypeFound(headers[..index])
      invariant cmd == Join(" ", tokens + HeaderTokens(headers[..index]))
    {
      var name := headers[index].name;
      var value := headers[index].value;
      if EqualsIgnoreCase(ACCEPT_ENCODING, name) && EqualsIgnoreCase("gzip", value) {
        compressed := true;
      }
      if EqualsIgnoreCase(CONTENT_TYPE, name) {
        contentTypeFound := true;
      }
      HeaderFlagsStep(headers, index);
      ghost var before := tokens + HeaderTokens(headers[..index]);
      JoinSnoc(" ", before, HeaderToken(headers[index]));
      cmd := cmd + " " + HeaderToken(headers[index]);
      HeaderTokensStep(tokens, headers, index);
      index := index + 1;
    }
    assert headers[..index] == headers;
  }

  /** The body branch: `stop` is set when the body ends the command early,
      with the placeholder or with the exception a read threw. */
  method AppendBody(curlCmd: string, ghost tokens: seq<string>, body: Option<Body>,
                    contentTypeFound: bool, parsesAsJson: string -> bool) returns (r: Result<string, string>, stop: bool)
    requires tokens != [] && curlCmd == Join(" ", tokens)
    ensures var outcome := BodyOutcome(body, contentTypeFound, parsesAsJson);
            && (stop <==> !outcome.Generated?)
            && (outcome.Generated? ==> r == Success(Join(" ", tokens + outcome.tokens)))
            && (outcome.TooLarge? ==> r == Success(TOO_LARGE))
            && (outcome.Thrown? ==> r == Failure(outcome.exception))
  {
    if body.None? {
      assert BodyOutcome(body, contentTypeFound, parsesAsJson) == Generated([]);
      assert tokens + [] == tokens;
      return Success(curlCmd), false;
    }
    var requestBody := body.value;
    if requestBody.kind.MultipartBody? {
      if requestBody.kind.contentLength > MAX_MULTIPART_LENGTH {
        assert BodyOutcome(body, contentTypeFound, parsesAsJson) == TooLarge;
        return Success(TOO_LARGE), true;
      }
      r := AppendParts(curlCmd, tokens, requestBody.kind.parts);
      stop := r.Failure?;
      return;
    }
    var contentTypeString := ContentTypeString(requestBody.contentType);
    if Contains(contentTypeString, OCTET_STREAM) {
      assert BodyOutcome(body, contentTypeFound, parsesAsJson) == Generated([BINARY_PLACEHOLDER]);
      JoinSnoc(" ", tokens, BINARY_PLACEHOLDER);
      return Success(curlCmd + " " + BINARY_PLACEHOLDER), false;
    }
    if requestBody.content.ReadFailed? {
      assert BodyOutcome(body, contentTypeFound, parsesAsJson) == Thrown(requestBody.content.exception);
      return Failure(requestBody.content.exception), true;
    }
    var text := requestBody.content.text;
    var json := !contentTypeFound && parsesAsJson(text);
    ghost var bodyTokens := (if json then [JSON_CONTENT_TYPE] else []) + [CurlFormat.BodyToken(text)];
    assert BodyOutcome(body, contentTypeFound, parsesAsJson) == Generated(bodyTokens);
    var cmd := curlCmd;
    ghost var added := tokens;
    if json {
      JoinSnoc(" ", added, JSON_CONTENT_TYPE);
      cmd := cmd + " " + JSON_CONTENT_TYPE;
      added := added + [JSON_CONTENT_TYPE];
    }
    JoinSnoc(" ", added, CurlFormat.BodyToken(text));
    cmd := cmd + " " + CurlFormat.BodyToken(text);
    added := added + [CurlFormat.BodyToken(text)];
    assert added == tokens + bodyTokens;
    return Success(cmd), false;
  }

  /** `cURLGenerator`: the command grows by ` token` appends; a read that
      throws propagates. */
  method CurlCommand(request: Request, parsesAsJson: string -> bool) returns (r: Result<string, string>)
    ensures r == CurlText(request, parsesAsJson)
  {
    var curlCmd := "curl '" + request.url + "'";
    curlCmd := curlCmd + " -X " + request.httpMethod;
    ghost var tokens := [CurlFormat.CURL, QuotedUrl(request.url), MethodToken(request.httpMethod)];
    assert curlCmd == Join(" ", tokens) by {
      assert tokens[..2][..1] == [CurlFormat.CURL];
      assert Join(" ", tokens[..2]) == CurlFormat.CURL + " " + QuotedUrl(request.url);
      assert Join(" ", tokens) == Join(" ", tokens[..2]) + " " + MethodToken(request.httpMethod);
      assert "curl '" == CurlFormat.CURL + " " + "'";
    }
    var compressed, contentTypeFound;
    curlCmd, compressed, contentTypeFound := AppendHeaders(curlCmd, tokens, request.headers);
    tokens := Head(request);
    var withBody, stop := AppendBody(curlCmd, tokens, request.body, contentTypeFound, parsesAsJson);
    if stop {
      return withBody;
    }
    var bodyTokens := BodyOutcome(request.body, contentTypeFound, parsesAsJson).tokens;
    curlCmd := withBody.value;
    tokens := tokens + bodyTokens;
    if compressed {
      JoinSnoc(" ", tokens, CurlFormat.COMPRESSED);
      curlCmd := curlCmd + " " + CurlFormat.COMPRESSED;
      tokens := tokens + [CurlFormat.COMPRESSED];
    }
    assert Generate(request, parsesAsJson) == Generated(tokens);
    return Success(curlCmd);
  }

  /** `headers[name]` finds the last field whose name matches ignoring case,
      and is null exactly when no field matches. */
  lemma {:induction false} LastValueSpec(fields: seq<Field>, name: string)
    ensures LastValue(fields, name).None? <==>
              forall i :: 0 <= i < |fields| ==> !EqualsIgnoreCase(name, fields[i].name)
    ensures LastValue(fields, name).Some? ==>
              exists i :: 0 <= i < |fields| && EqualsIgnoreCase(name, fields[i].name)
                          && fields[i].value == LastValue(fields, name).value
                          && forall j :: i < j < |fields| ==> !EqualsIgnoreCase(name, fields[j].name)
    decreases |fields|
  {
    if fields != [] {
      var n := |fields| - 1;
      var front := fields[..n];
      LastValueSpec(front, name);
      assert forall i :: 0 <= i < n ==> front[i] == fields[i];
      if !EqualsIgnoreCase(name, fields[n].name) && LastValue(front, name).Some? {
        var i :| 0 <= i < n && EqualsIgnoreCase(name, front[i].name)
                 && front[i].value == LastValue(front, name).value
                 && forall j :: i < j < n ==> !EqualsIgnoreCase(name, front[j].name);
        assert EqualsIgnoreCase(name, fields[i].name);
      }
    }
  }

  /** Without a `name=` segment the part name is empty. */
  lemma {:induction false} FirstNameDefault(segments: seq<string>)
    requires forall i :: 0 <= i < |segments| ==> !IsNameSegment(segments[i])
    ensures FirstName(segments) == ""
    decreases |segments|
  {
    if segments != [] {
      FirstNameDefault(segments[1..]);
    }
  }

  /** The first `name=` segment gives the name, whatever follows it. */
  lemma {:induction false} FirstNameWins(segments: seq<string>, j: nat)
    requires j < |segments| && IsNameSegment(segments[j])
    requires forall i :: 0 <= i < j ==> !IsNameSegment(segments[i])
    ensures FirstName(segments) == CleanName(segments[j])
    decreases j
  {
    if j > 0 {
      FirstNameWins(segments[1..], j - 1);
    }
  }

  /** Every double quote is stripped from a part name. */
  lemma {:induction false} FirstNameHasNoQuote(segments: seq<string>)
    ensures QUOTE !in FirstName(segments)
    decreases |segments|
  {
    if segments != [] {
      if IsNameSegment(segments[0]) {
        RemoveAllChar(RemoveAll(Trim(segments[0], IsControlOrSpace), NAME_MARK), QUOTE);
      } else {
        FirstNameHasNoQuote(segments[1..]);
      }
    }
  }

  lemma PartNameHasNoQuote(part: Part)
    ensures QUOTE !in PartName(part)
  {
    if part.headers.Some? {
      var disposition := LastValue(part.headers.value, CONTENT_DISPOSITION);
      if disposition.Some? {
        FirstNameHasNoQuote(Split(disposition.value, ';'));
      }
    }
  }

  /** All parts readable: one `-F` token per part, in order. Otherwise the
      exception of the first part whose read throws. */
  lemma {:induction false} PartTokensSpec(parts: seq<Part>)
    ensures PartTokens(parts).Success? <==> forall i :: 0 <= i < |parts| ==> parts[i].body.Read?
    ensures PartTokens(parts).Success? ==>
              |PartTokens(parts).value| == |parts|
              && forall i :: 0 <= i < |parts| ==>
                   PartTokens(parts).value[i] == PartToken(PartName(parts[i]), parts[i].body.text)
    ensures PartTokens(parts).Failure? ==>
              exists i :: 0 <= i < |parts| && parts[i].body.ReadFailed?
                          && (forall j :: 0 <= j < i ==> parts[j].body.Read?)
                          && PartTokens(parts).error == parts[i].body.exception
    decreases |parts|
  {
    if parts != [] {
      var n := |parts| - 1;
      var front := parts[..n];
      PartTokensSpec(front);
      assert forall i :: 0 <= i < n ==> front[i] == parts[i];
      if PartTokens(front).Failure? {
        var i :| 0 <= i < n && front[i].body.ReadFailed?
                 && (forall j :: 0 <= j < i ==> front[j].body.Read?)
                 && PartTokens(front).error == front[i].body.exception;
        assert parts[i].body.ReadFailed?;
      }
    }
  }

  /** A multipart body over 100 KiB gives `---`, whatever its parts hold. */
  lemma TooLargeIff(request: Request, parsesAsJson: string -> bool)
    ensures Generate(request, parsesAsJson).TooLarge? <==>
              request.body.Some? && request.body.value.kind.MultipartBody?
              && request.body.value.kind.contentLength > MAX_MULTIPART_LENGTH
    ensures Generate(request, parsesAsJson).TooLarge? ==> CurlText(request, parsesAsJson) == Success("---")
  {
  }

  /** The command throws exactly when a read it performs throws: a part of a
      multipart body within the size limit, or a body that is neither
      multipart nor octet-stream. */
  lemma ThrowsIff(request: Request, parsesAsJson: string -> bool)
    ensures CurlText(request, parsesAsJson).Failure? <==>
              request.body.Some? &&
              var b := request.body.value;
              if b.kind.MultipartBody?
              then b.kind.contentLength <= MAX_MULTIPART_LENGTH
                   && exists i :: 0 <= i < |b.kind.parts| && b.kind.parts[i].body.ReadFailed?
              else !Contains(ContentTypeString(b.contentType), OCTET_STREAM) && b.content.ReadFailed?
  {
    if request.body.Some? && request.body.value.kind.MultipartBody? {
      PartTokensSpec(request.body.value.kind.parts);
    }
  }

  /** The command starts with `curl`, the single-quoted URL and the method as
      given, then one `-H 'name: value'` per header in request order. */
  lemma HeadLayout(request: Request, parsesAsJson: string -> bool)
    requires Generate(request, parsesAsJson).Generated?
    ensures var ts := Generate(request, parsesAsJson).tokens;
            && |ts| >= 3 + |request.headers|
            && ts[0] == "curl" && ts[1] == "'" + request.url + "'" && ts[2] == "-X " + request.httpMethod
            && forall i :: 0 <= i < |request.headers| ==>
                 ts[3 + i] == "-H '" + request.headers[i].name + ": " + request.headers[i].value + "'"
  {
  }

  /** No body token is `--compressed`. */
  lemma {:induction false} BodyTokensNotCompressed(body: Option<Body>, contentTypeFound: bool,
                                                    parsesAsJson: string -> bool)
    requires BodyOutcome(body, contentTypeFound, parsesAsJson).Generated?
    ensures var bt := BodyOutcome(body, contentTypeFound, parsesAsJson).tokens;
            forall j :: 0 <= j < |bt| ==> |bt[j]| > 2 && (bt[j][1] != '-' || bt[j][2] != 'c')
  {
    var bt := BodyOutcome(body, contentTypeFound, parsesAsJson).tokens;
    if body.Some? && body.value.kind.MultipartBody? {
      PartTokensSpec(body.value.kind.parts);
      forall j | 0 <= j < |bt| ensures |bt[j]| > 2 && bt[j][1] == 'F' {
        assert bt[j] == PartToken(PartName(body.value.kind.parts[j]), body.value.kind.parts[j].body.text);
      }
    } else if body.Some? {
      assert BINARY_PLACEHOLDER[..14] == "--data-binary ";
      assert JSON_CONTENT_TYPE[1] == 'H';
      forall j | 0 <= j < |bt| ensures |bt[j]| > 2 && (bt[j][1] != '-' || bt[j][2] != 'c') {
        if bt[j] != BINARY_PLACEHOLDER && bt[j] != JSON_CONTENT_TYPE {
          assert bt[j] == CurlFormat.BodyToken(body.value.content.text) && bt[j][1] == 'd';
        }
      }
    }
  }

  /** `--compressed` closes the command exactly when some header is
      `Accept-Encoding: gzip`, ignoring case. */
  lemma CompressedLast(request: Request, parsesAsJson: string -> bool)
    requires Generate(request, parsesAsJson).Generated?
    ensures var ts := Generate(request, parsesAsJson).tokens;
            ts[|ts| - 1] == "--compressed" <==> Compressed(request.headers)
  {
    var ts := Generate(request, parsesAsJson).tokens;
    var bt := BodyOutcome(request.body, ContentTypeFound(request.headers), parsesAsJson).tokens;
    if !Compressed(request.headers) {
      var last := ts[|ts| - 1];
      assert ts == Head(request) + bt;
      if bt != [] {
        BodyTokensNotCompressed(request.body, ContentTypeFound(request.headers), parsesAsJson);
        assert last == bt[|bt| - 1];
      } else if request.headers != [] {
        assert last == HeaderToken(request.headers[|request.headers| - 1]) && last[1] == 'H';
      } else {
        assert last == MethodToken(request.httpMethod) && last[1] == 'X';
      }
      assert CurlFormat.COMPRESSED[1] == '-' && CurlFormat.COMPRESSED[2] == 'c';
    }
  }

  /** An octet-stream body that is not multipart gives the attach-a-file
      placeholder, and its content is never read. */
  lemma OctetBodyNotRead(request: Request, parsesAsJson: string -> bool, other: ReadResult)
    requires request.body.Some? && !request.body.value.kind.MultipartBody?
    requires Contains(ContentTypeString(request.body.value.contentType), OCTET_STREAM)
    ensures Generate(request, parsesAsJson).Generated?
    ensures var ts := Generate(request, parsesAsJson).tokens;
            ts[3 + |request.headers|] == BINARY_PLACEHOLDER
    ensures Generate(request, parsesAsJson)
         == Generate(request.(body := Some(request.body.value.(content := other))), parsesAsJson)
  {
  }

  /** A readable raw body is sent with `-d '...'`, preceded by a JSON
      `Content-Type` header exactly when no header is named `Content-Type`
      (ignoring case) and the text parses as JSON. */
  lemma JsonContentType(request: Request, parsesAsJson: string -> bool)
    requires request.body.Some? && !request.body.value.kind.MultipartBody?
    requires !Contains(ContentTypeString(request.body.value.contentType), OCTET_STREAM)
    requires request.body.value.content.Read?
    ensures Generate(request, parsesAsJson).Generated?
    ensures var ts := Generate(request, parsesAsJson).tokens;
            var k := 3 + |request.headers|;
            var text := request.body.value.content.text;
            var json := !ContentTypeFound(request.headers) && parsesAsJson(text);
            && k + (if json then 1 else 0) < |ts|
            && (ts[k] == "-H 'Content-Type: application/json'" <==> json)
            && ts[k + (if json then 1 else 0)] == "-d '" + text + "'"
  {
    var ts := Generate(request, parsesAsJson).tokens;
    var k := 3 + |request.headers|;
    var text := request.body.value.content.text;
    var json := !ContentTypeFound(request.headers) && parsesAsJson(text);
    var bt := BodyOutcome(request.body, ContentTypeFound(request.headers), parsesAsJson).tokens;
    assert ts == Head(request) + bt + (if Compressed(request.headers) then [CurlFormat.COMPRESSED] else []);
    assert |Head(request)| == k;
    if json {
      assert bt == [JSON_CONTENT_TYPE, CurlFormat.BodyToken(text)];
      assert ts[k] == bt[0] && ts[k + 1] == bt[1];
    } else {
      assert bt == [CurlFormat.BodyToken(text)];
      assert ts[k] == bt[0];
      assert ts[k][1] == 'd' && JSON_CONTENT_TYPE[1] == 'H';
    }
  }
}
