/** What the `curl.generator` command line promises, stated over the
    specification functions `Tokens` and `CommandLine` that `Build` is proved
    to compute. */
module GeneratorProperties {
  import opened Wrappers
  import opened Text
  import opened Joining
  import opened HeaderModel
  import opened Requests
  import opened CurlFormat
  import opened Generator

  /** Index of the first body token: after `curl`, the method, the headers and
      the inferred `Content-Type`. */
  function BodyStart(request: Request): nat {
    2 + |request.headers| + |InferredContentType(ContentTypeOf(request.body), ToHeaders(request.headers))|
  }

  /** Every part token is a `-F "..."` token. */
  lemma {:induction false} PartTokensAreFormFields(parts: seq<Part>)
    requires PartTokens(parts).Success?
    ensures forall j :: 0 <= j < |PartTokens(parts).value| ==> StartsWith(PartTokens(parts).value[j], "-F \"")
    decreases |parts|
  {
    if parts != [] {
      PartTokensAreFormFields(parts[..|parts| - 1]);
    }
  }

  /** The tokens one part contributes: its `-F` token, or none for a part
      without headers. */
  function EmittedBy(part: Part): seq<string>
    requires part.headers != Some([])
  {
    if part.headers.None? then [] else [PartToken(part).value.value]
  }

  /** A part with headers that are not an empty list gives one token; a part
      without headers gives none. */
  lemma PartTokenShape(part: Part)
    requires part.headers != Some([])
    ensures PartToken(part).Success?
    ensures PartToken(part).value.Some? <==> part.headers.Some?
  {
  }

  /** One more part: the loop's tokens so far, then that part's token when
      it has headers, or nothing when it has none. */
  lemma PartTokensSnoc(parts: seq<Part>)
    requires parts != []
    requires PartTokens(parts[..|parts| - 1]).Success? && PartToken(parts[|parts| - 1]).Success?
    ensures PartToken(parts[|parts| - 1]).value.None? ==> PartTokens(parts) == PartTokens(parts[..|parts| - 1])
    ensures PartToken(parts[|parts| - 1]).value.Some? ==>
              PartTokens(parts) == Success(PartTokens(parts[..|parts| - 1]).value + [PartToken(parts[|parts| - 1]).value.value])
  {
  }

  /** The part tokens read front to back: each part in turn adds what it
      emits. */
  function EmittedByAll(parts: seq<Part>): seq<string>
    requires forall i :: 0 <= i < |parts| ==> parts[i].headers != Some([])
    decreases |parts|
  {
    if parts == [] then [] else EmittedBy(parts[0]) + EmittedByAll(parts[1..])
  }

  /** Reading front to back, the last part's tokens come last. */
  lemma {:induction false} EmittedByAllSnoc(parts: seq<Part>)
    requires parts != []
    requires forall i :: 0 <= i < |parts| ==> parts[i].headers != Some([])
    ensures EmittedByAll(parts) == EmittedByAll(parts[..|parts| - 1]) + EmittedBy(parts[|parts| - 1])
    decreases |parts|
  {
    if |parts| > 1 {
      var rest := parts[1..];
      EmittedByAllSnoc(rest);
      assert rest[..|rest| - 1] == parts[..|parts| - 1][1..];
      assert rest[|rest| - 1] == parts[|parts| - 1];
      assert parts[..|parts| - 1][0] == parts[0];
    } else {
      assert parts[..0] == [];
      assert parts[1..] == [];
    }
  }

  /** When no part has an empty header list, the multipart loop succeeds and
      its tokens are, in part order, the token of every part that has
      headers; parts without headers add nothing. */
  lemma {:induction false} PartTokensInOrder(parts: seq<Part>)
    requires forall i :: 0 <= i < |parts| ==> parts[i].headers != Some([])
    ensures PartTokens(parts) == Success(EmittedByAll(parts))
    decreases |parts|
  {
    if parts != [] {
      var front := parts[..|parts| - 1];
      PartTokensInOrder(front);
      EmittedByAllSnoc(parts);
      var last := parts[|parts| - 1];
      PartTokenShape(last);
      PartTokensSnoc(parts);
      var sofar := EmittedByAll(front);
      if last.headers.None? {
        assert EmittedBy(last) == [];
        assert sofar + [] == sofar;
      } else {
        assert EmittedBy(last) == [PartToken(last).value.value];
      }
    }
  }

  /** When every part has a non-empty header list there is exactly one token
      per part, the i-th being the i-th part's `-F` token. */
  lemma {:induction false} PartTokensOnePerPart(parts: seq<Part>)
    requires forall i :: 0 <= i < |parts| ==> parts[i].headers.Some? && parts[i].headers.value != []
    ensures PartTokens(parts).Success?
    ensures |PartTokens(parts).value| == |parts|
    ensures forall i :: 0 <= i < |parts| ==> PartTokens(parts).value[i] == PartToken(parts[i]).value.value
    decreases |parts|
  {
    PartTokensInOrder(parts);
    EmittedOnePerPart(parts);
  }

  /** Read front to back, parts that all have headers give one token each. */
  lemma {:induction false} EmittedOnePerPart(parts: seq<Part>)
    requires forall i :: 0 <= i < |parts| ==> parts[i].headers.Some? && parts[i].headers.value != []
    ensures |EmittedByAll(parts)| == |parts|
    ensures forall i :: 0 <= i < |parts| ==> EmittedByAll(parts)[i] == PartToken(parts[i]).value.value
    decreases |parts|
  {
    if parts != [] {
      var rest := parts[1..];
      EmittedOnePerPart(rest);
      var all := EmittedByAll(parts);
      var later := EmittedByAll(rest);
      var first := PartToken(parts[0]).value.value;
      assert EmittedBy(parts[0]) == [first];
      assert all == [first] + later;
      forall i | 0 <= i < |parts| ensures all[i] == PartToken(parts[i]).value.value {
        if i > 0 {
          assert all[i] == later[i - 1];
          assert rest[i - 1] == parts[i];
        }
      }
    }
  }

  /** No body token looks like a header token or like `--compressed`. */
  lemma BodyTokensArePlain(choice: BodyChoice)
    requires BodyTokens(choice).Success?
    ensures PlainBodyTokens(BodyTokens(choice).value)
  {
    var bt := BodyTokens(choice).value;
    if choice.MultipartForm? {
      PartTokensAreFormFields(choice.parts);
    }
    forall j | 0 <= j < |bt| ensures !StartsWith(bt[j], "-H ") && bt[j] != COMPRESSED {
      assert bt[j][1] != 'H' && (bt[j][1] != '-' || bt[j][2] != 'c');
    }
  }

  /** The body branches are tried in order, so exactly one applies: a form
      needs the form media type and a form body, multipart the multipart type
      and a multipart body; otherwise the octet-stream type means binary and
      anything else is read as raw text. */
  lemma SelectionOrder(b: Body)
    ensures var choice := Choose(Some(b));
            var form := ContentTypeContains(b.contentType, FORM_URL_ENCODED) && b.kind.FormBody?;
            var multipart := ContentTypeContains(b.contentType, MULTIPART_FORM_DATA) && b.kind.MultipartBody?;
            var binary := ContentTypeContains(b.contentType, OCTET_STREAM);
            && (choice.UrlEncodedForm? <==> form)
            && (choice.MultipartForm? <==> multipart)
            && (choice.Binary? <==> binary && !form && !multipart)
            && (choice.Raw? <==> !binary && !form && !multipart)
            && (choice.Raw? ==> choice.text == BodyAsString(b.content))
            && !choice.NoBody?
  {
  }

  /** `build` throws only for a multipart body selected as such with a part
      whose header list is present and empty. */
  lemma {:induction false} PartTokensFailIff(parts: seq<Part>)
    ensures PartTokens(parts).Failure? <==> exists i :: 0 <= i < |parts| && parts[i].headers == Some([])
    ensures PartTokens(parts).Failure? ==> PartTokens(parts).error == EMPTY_HEADERS
    decreases |parts|
  {
    if parts != [] {
      var front := parts[..|parts| - 1];
      PartTokensFailIff(front);
      if exists i :: 0 <= i < |front| && front[i].headers == Some([]) {
        var i :| 0 <= i < |front| && front[i].headers == Some([]);
        assert parts[i] == front[i];
      }
      if exists i :: 0 <= i < |parts| && parts[i].headers == Some([]) {
        var i :| 0 <= i < |parts| && parts[i].headers == Some([]);
        if i < |front| {
          assert front[i] == parts[i];
        }
      }
    }
  }

  lemma ThrowsIff(request: Request)
    ensures Tokens(request).Failure? <==>
              Choose(request.body).MultipartForm?
              && exists i :: 0 <= i < |Choose(request.body).parts| && Choose(request.body).parts[i].headers == Some([])
    ensures Tokens(request).Failure? ==> Tokens(request).error == EMPTY_HEADERS
  {
    if Choose(request.body).MultipartForm? {
      PartTokensFailIff(Choose(request.body).parts);
    }
  }

  /** `curl` and the upper-cased method come first, one `-H "name:value"`
      token per request header follows in request order (duplicates kept),
      and the quoted URL is the last token. */
  lemma HeadersInOrder(request: Request)
    requires Tokens(request).Success?
    ensures var ts := Tokens(request).value;
            && |ts| >= 3 + |request.headers|
            && ts[0] == "curl" && ts[1] == "-X " + ToUpper(request.httpMethod)
            && (forall i :: 0 <= i < |request.headers| ==>
                  ts[2 + i] == "-H \"" + request.headers[i].name + ":" + request.headers[i].value + "\"")
            && ts[|ts| - 1] == "\"" + request.url + "\""
  {
    var bt := BodyTokens(Choose(request.body)).value;
    UrlLastPositions(request.httpMethod, ToHeaders(request.headers), ContentTypeOf(request.body),
                     bt, Compressed(request.headers), request.url);
  }

  /** The token after the headers is a header token exactly when the body
      declares a type and no header is named exactly `Content-Type`; it then
      carries that type. */
  lemma ContentTypeInference(request: Request)
    requires Tokens(request).Success?
    ensures var ts := Tokens(request).value;
            var k := 2 + |request.headers|;
            && k < |ts|
            && (StartsWith(ts[k], "-H ") <==> InfersContentType(request))
            && (InfersContentType(request) ==>
                  ts[k] == "-H \"Content-Type:" + ContentTypeOf(request.body).value + "\"")
  {
    InfersContentTypeIff(request);
    ContentTypeSlot(request, InfersContentType(request));
    if InfersContentType(request) {
      ContentTypeHeaderText(ContentTypeOf(request.body).value);
    }
  }

  /** `ContentTypeInference` with the inference condition stated on the
      `Header` objects. */
  lemma ContentTypeSlot(request: Request, infers: bool)
    requires Tokens(request).Success?
    requires infers <==> ContentTypeOf(request.body).Some? && !HasName(ToHeaders(request.headers), CONTENT_TYPE)
    ensures var ts := Tokens(request).value;
            var k := 2 + |request.headers|;
            && k < |ts|
            && (StartsWith(ts[k], "-H ") <==> infers)
            && (infers ==> ts[k] == "-H \"" + CONTENT_TYPE + ":" + ContentTypeOf(request.body).value + "\"")
  {
    TokensAreUrlLast(request);
    BodyTokensArePlain(Choose(request.body));
    var hs := ToHeaders(request.headers);
    assert |hs| == |request.headers|;
    UrlLastContentType(request.httpMethod, hs, ContentTypeOf(request.body),
                       BodyTokens(Choose(request.body)).value, Compressed(request.headers), request.url);
  }

  /** `--compressed` is emitted exactly when some header is `Accept-Encoding:
      gzip` (ignoring case), and then it is the token just before the URL. */
  lemma CompressedFlag(request: Request)
    requires Tokens(request).Success?
    ensures var ts := Tokens(request).value;
            && (COMPRESSED in ts <==> Compressed(request.headers))
            && (Compressed(request.headers) ==> ts[|ts| - 2] == COMPRESSED)
  {
    var bt := BodyTokens(Choose(request.body)).value;
    BodyTokensArePlain(Choose(request.body));
    UrlLastCompressed(request.httpMethod, ToHeaders(request.headers), ContentTypeOf(request.body),
                      bt, Compressed(request.headers), request.url);
  }

  /** A successful `build` lays its tokens out in the URL-last order. */
  lemma TokensAreUrlLast(request: Request)
    requires Tokens(request).Success?
    ensures BodyTokens(Choose(request.body)).Success?
    ensures Tokens(request).value
         == UrlLast(request.httpMethod, ToHeaders(request.headers), ContentTypeOf(request.body),
                    BodyTokens(Choose(request.body)).value, Compressed(request.headers), request.url)
  {
  }

  /** Where the body tokens sit and how many follow them. */
  lemma BodyPosition(request: Request)
    requires Tokens(request).Success?
    ensures var ts := Tokens(request).value;
            var bt := BodyTokens(Choose(request.body)).value;
            var m := BodyStart(request);
            && |ts| == m + |bt| + (if Compressed(request.headers) then 1 else 0) + 1
            && forall j :: 0 <= j < |bt| ==> ts[m + j] == bt[j]
  {
    TokensAreUrlLast(request);
    assert |ToHeaders(request.headers)| == |request.headers|;
    UrlLastBody(request.httpMethod, ToHeaders(request.headers), ContentTypeOf(request.body),
                BodyTokens(Choose(request.body)).value, Compressed(request.headers), request.url,
                BodyStart(request));
  }

  /** A url-encoded form gives one `--data-urlencode "name=value"` token per
      pair, in pair order, names and values copied as already encoded. */
  lemma FormFields(request: Request)
    requires Choose(request.body).UrlEncodedForm?
    ensures Tokens(request).Success?
    ensures var ts := Tokens(request).value;
            var pairs := Choose(request.body).pairs;
            var m := BodyStart(request);
            && |ts| == m + |pairs| + (if Compressed(request.headers) then 1 else 0) + 1
            && forall j :: 0 <= j < |pairs| ==>
                 ts[m + j] == "--data-urlencode \"" + pairs[j].encodedName + "=" + pairs[j].encodedValue + "\""
  {
    var pairs := Choose(request.body).pairs;
    assert BodyTokens(Choose(request.body)) == Success(FormTokens(pairs));
    ThrowsIff(request);
    BodyPosition(request);
    var bt := FormTokens(pairs);
    assert forall j :: 0 <= j < |pairs| ==> bt[j] == FormToken(pairs[j]);
  }

  /** An octet-stream body gives the single placeholder token, and the body's
      content is never read: any other content gives the same tokens. */
  lemma BinaryBodyNotRead(request: Request, other: ReadResult)
    requires Choose(request.body).Binary?
    ensures Tokens(request).Success?
    ensures var ts := Tokens(request).value;
            var m := BodyStart(request);
            && |ts| == m + 1 + (if Compressed(request.headers) then 1 else 0) + 1
            && ts[m] == "--data-binary @filename"
    ensures Tokens(request) == Tokens(request.(body := Some(request.body.value.(content := other))))
  {
    BodyPosition(request);
  }

  /** Any other body is read as text and sent with `-d '...'`; a read that
      throws leaves a diagnostic in its place instead of failing. */
  lemma RawBody(request: Request)
    requires Choose(request.body).Raw?
    ensures Tokens(request).Success?
    ensures var ts := Tokens(request).value;
            var m := BodyStart(request);
            && |ts| == m + 1 + (if Compressed(request.headers) then 1 else 0) + 1
            && ts[m] == "-d '" + BodyAsString(request.body.value.content) + "'"
            && (request.body.value.content.ReadFailed? ==>
                  ts[m] == "-d 'Error while reading body: " + request.body.value.content.exception + "'")
  {
    BodyPosition(request);
    var content := request.body.value.content;
    assert BodyTokens(Choose(request.body)).value == [BodyToken(BodyAsString(content))];
    if content.ReadFailed? {
      ReadFailureToken(content.exception);
    }
  }

  /** Without headers and body the command is `curl -X <METHOD> "<url>"`. */
  lemma BareRequest(request: Request)
    requires request.headers == [] && request.body.None?
    ensures CommandLine(request, EMPTY_SPACE)
         == Success("curl -X " + ToUpper(request.httpMethod) + " \"" + request.url + "\"")
  {
    assert !Compressed(request.headers);
    assert Choose(request.body) == NoBody;
    assert HeaderTokens(ToHeaders(request.headers)) == [];
    assert ContentTypeOf(request.body) == None;
    var ts := Tokens(request).value;
    assert ts == ["curl", "-X " + ToUpper(request.httpMethod), "\"" + request.url + "\""];
    assert ts[..2][..1] == ["curl"];
    assert Join(EMPTY_SPACE, ts[..2]) == "curl" + EMPTY_SPACE + ts[1];
    assert Join(EMPTY_SPACE, ts) == Join(EMPTY_SPACE, ts[..2]) + EMPTY_SPACE + ts[2];
    var u := ToUpper(request.httpMethod);
    calc {
      Join(EMPTY_SPACE, ts);
      "curl" + " " + ("-X " + u) + " " + ("\"" + request.url + "\"");
      { assert "curl" + " " + "-X " == "curl -X "; }
      "curl -X " + u + " \"" + request.url + "\"";
    }
  }

  /** The tokens of a request with one header, no gzip and no body. */
  lemma OneHeaderTokens(request: Request)
    requires |request.headers| == 1 && request.body.None?
    requires !AcceptsGzip(request.headers[0])
    ensures Tokens(request)
         == Success(["curl", "-X " + ToUpper(request.httpMethod),
                     "-H \"" + request.headers[0].name + ":" + request.headers[0].value + "\"",
                     "\"" + request.url + "\""])
  {
    var f := request.headers[0];
    var hs := ToHeaders(request.headers);
    var h := "-H \"" + f.name + ":" + f.value + "\"";
    assert !Compressed(request.headers);
    assert BodyTokens(Choose(request.body)) == Success([]);
    assert hs == [Header(Some(f.name), Some(f.value))];
    assert HeaderToken(hs[0]) == h;
    assert HeaderTokens(hs) == [h];
    assert InferredContentType(ContentTypeOf(request.body), hs) == [];
    assert ContentTypeOf(request.body) == None;
    assert Tokens(request) == Success(UrlLast(request.httpMethod, hs, None, [], false, request.url));
    assert UrlLast(request.httpMethod, hs, None, [], false, request.url)
        == [CURL, MethodToken(request.httpMethod)] + [h] + [] + [] + [] + [UrlToken(request.url)]
        == [CURL, MethodToken(request.httpMethod), h, UrlToken(request.url)];
  }

  /** One header that does not ask for gzip and no body:
      `curl -X <METHOD> -H "name:value" "<url>"`. */
  lemma OneHeaderRequest(request: Request)
    requires |request.headers| == 1 && request.body.None?
    requires !AcceptsGzip(request.headers[0])
    ensures CommandLine(request, EMPTY_SPACE)
         == Success("curl -X " + ToUpper(request.httpMethod)
                    + " -H \"" + request.headers[0].name + ":" + request.headers[0].value + "\""
                    + " \"" + request.url + "\"")
  {
    var f := request.headers[0];
    var u := ToUpper(request.httpMethod);
    var h := "-H \"" + f.name + ":" + f.value + "\"";
    var url := "\"" + request.url + "\"";
    OneHeaderTokens(request);
    assert Join(EMPTY_SPACE, ["curl"]) == "curl";
    JoinSnoc(EMPTY_SPACE, ["curl"], "-X " + u);
    assert ["curl"] + ["-X " + u] == ["curl", "-X " + u];
    JoinSnoc(EMPTY_SPACE, ["curl", "-X " + u], h);
    assert ["curl", "-X " + u] + [h] == ["curl", "-X " + u, h];
    JoinSnoc(EMPTY_SPACE, ["curl", "-X " + u, h], url);
    assert ["curl", "-X " + u, h] + [url] == ["curl", "-X " + u, h, url];
    var p := "curl -X " + u;
    assert "curl" + " " + ("-X " + u) == p;
    var q := p + " -H \"" + f.name + ":" + f.value + "\"";
    assert p + " " + h == q;
    assert q + " " + url == q + " \"" + request.url + "\"";
  }

  /** The joined command starts with `curl`, the delimiter, the method and the
      delimiter, and ends with the delimiter and the quoted URL. */
  lemma CommandFrame(request: Request, delimiter: string)
    requires Tokens(request).Success?
    ensures var text := CommandLine(request, delimiter).value;
            && StartsWith(text, "curl" + delimiter + "-X " + ToUpper(request.httpMethod) + delimiter)
            && EndsWith(text, delimiter + "\"" + request.url + "\"")
  {
    TokensAreUrlLast(request);
    var bt := BodyTokens(Choose(request.body)).value;
    assert CommandLine(request, delimiter).value == Join(delimiter, Tokens(request).value);
    UrlLastFrame(delimiter, request.httpMethod, ToHeaders(request.headers), ContentTypeOf(request.body),
                 bt, Compressed(request.headers), request.url);
  }

  /** A disposition without a `name="` segment leaves the part name empty. */
  lemma {:induction false} NameDefaultsToEmpty(segments: seq<string>)
    requires forall i :: 0 <= i < |segments| ==> !StartsWith(Trim(segments[i], IsWhitespace), NAME_PREFIX)
    ensures DispositionName(segments) == ""
    decreases |segments|
  {
    if segments != [] {
      NameDefaultsToEmpty(segments[..|segments| - 1]);
    }
  }

  /** With several `name="` segments the last one gives the name. */
  lemma {:induction false} LastNameWins(segments: seq<string>, j: nat)
    requires j < |segments|
    requires StartsWith(Trim(segments[j], IsWhitespace), NAME_PREFIX)
    requires forall i :: j < i < |segments| ==> !StartsWith(Trim(segments[i], IsWhitespace), NAME_PREFIX)
    ensures DispositionName(segments) == Unquoted(Trim(segments[j], IsWhitespace), NAME_PREFIX)
    decreases |segments|
  {
    if j < |segments| - 1 {
      var front := segments[..|segments| - 1];
      assert front[j] == segments[j];
      LastNameWins(front, j);
    }
  }

  /** The `Content-Disposition` value a form part carries:
      `form-data; name="<name>"`, and `; filename="<file>"` for a file. */
  function FormDataDisposition(name: string, filename: Option<string>): string {
    "form-data; name=\"" + name + "\""
    + (if filename.Some? then "; filename=\"" + filename.value + "\"" else "")
  }

  /** A segment ` <prefix><value>"` trims to `<prefix><value>"`, and
      unquoting it gives the value back when the value has no surrounding
      whitespace. */
  lemma {:induction false} QuotedSegment(prefix: string, v: string)
    requires |prefix| > 0 && !IsWhitespace(prefix[0])
    requires Trim(v, IsWhitespace) == v
    ensures Trim(" " + prefix + v + "\"", IsWhitespace) == prefix + v + "\""
    ensures Unquoted(prefix + v + "\"", prefix) == v
  {
    var t := prefix + v + "\"";
    assert (" " + t)[1..] == t;
    assert TrimStart(" " + t, IsWhitespace) == TrimStart(t, IsWhitespace) == t;
    assert " " + prefix + v + "\"" == " " + t;
    assert t[|t| - 1] == QUOTE && !IsWhitespace(QUOTE);
    assert TrimEnd(t, IsWhitespace) == t;
    assert StartsWith(t, prefix);
    assert RemovePrefix(t, prefix) == v + "\"";
    assert RemoveSuffix(v + "\"", "\"") == v;
  }

  /** The segments of a form-data disposition. */
  lemma {:induction false} DispositionSegments(name: string, filename: Option<string>)
    requires ';' !in name
    requires filename.Some? ==> ';' !in filename.value
    ensures Split(FormDataDisposition(name, filename), ';')
         == ["form-data", " name=\"" + name + "\""]
            + (if filename.Some? then [" filename=\"" + filename.value + "\""] else [])
  {
    var nameSegment := " name=\"" + name + "\"";
    assert ';' !in " name=\"" && ';' !in "\"" && ';' !in "form-data";
    assert ';' !in nameSegment;
    if filename.Some? {
      var fileSegment := " filename=\"" + filename.value + "\"";
      assert ';' !in " filename=\"";
      assert ';' !in fileSegment;
      assert FormDataDisposition(name, filename) == "form-data" + [';'] + (nameSegment + [';'] + fileSegment);
      SplitAtSeparator("form-data", nameSegment + [';'] + fileSegment, ';');
      SplitAtSeparator(nameSegment, fileSegment, ';');
      SplitNoSeparator(fileSegment, ';');
    } else {
      assert FormDataDisposition(name, filename) == "form-data" + [';'] + nameSegment;
      SplitAtSeparator("form-data", nameSegment, ';');
      SplitNoSeparator(nameSegment, ';');
    }
  }

  /** A file part's disposition names a file: it contains `filename=`. */
  lemma {:induction false} FileDispositionIsFile(name: string, filename: string)
    ensures Contains(FormDataDisposition(name, Some(filename)), FILENAME_MARK)
  {
    var d := FormDataDisposition(name, Some(filename));
    var i := |"form-data; name=\"" + name + "\"; "|;
    assert d[i..] == FILENAME_MARK + "\"" + filename + "\"";
    ContainsIff(d, FILENAME_MARK);
  }

  /** Without `=` in the name, a text part's disposition does not mention
      `filename=`: its only `=` sits right after `name`. */
  lemma {:induction false} TextDispositionIsNotFile(name: string)
    requires '=' !in name
    ensures !Contains(FormDataDisposition(name, None), FILENAME_MARK)
  {
    var d := FormDataDisposition(name, None);
    ContainsIff(d, FILENAME_MARK);
    forall i | 0 <= i <= |d| ensures !(FILENAME_MARK <= d[i..]) {
      NoFileMarkAt(name, i);
    }
  }

  /** At each position, `filename=` fails to match: its `=` would have to be
      the one after `name`, where the text starts with `ta;` instead. */
  lemma {:induction false} NoFileMarkAt(name: string, i: nat)
    requires '=' !in name
    requires i <= |FormDataDisposition(name, None)|
    ensures !(FILENAME_MARK <= FormDataDisposition(name, None)[i..])
  {
    var d := FormDataDisposition(name, None);
    assert d == "form-data; name=\"" + name + "\"";
    assert FILENAME_MARK[0] == 'f' && FILENAME_MARK[8] == '=';
    if i + 9 <= |d| {
      if i + 8 < 17 {
        assert d[..17] == "form-data; name=\"";
        assert d[i + 8] == '=' ==> i == 7;
        assert d[7] == 't';
      } else if i + 8 < 17 + |name| {
        assert d[i + 8] == name[i + 8 - 17];
      } else {
        assert d[i + 8] == QUOTE;
      }
    }
  }

  /** A trimmed `filename="..."` segment does not start with `name="`. */
  lemma {:induction false} FileSegmentIsNotName(filename: string)
    ensures !StartsWith(Trim(" filename=\"" + filename + "\"", IsWhitespace), NAME_PREFIX)
  {
    var fileSegment := " filename=\"" + filename + "\"";
    var trimmed := Trim(fileSegment, IsWhitespace);
    assert fileSegment[0] == ' ' && fileSegment[1] == 'f';
    assert TrimStart(fileSegment, IsWhitespace) == fileSegment[1..];
    assert TrimEnd(fileSegment[1..], IsWhitespace) == fileSegment[1..] by {
      assert fileSegment[1..][|fileSegment| - 2] == QUOTE;
    }
    assert trimmed[0] == 'f' && NAME_PREFIX[0] == 'n';
  }

  /** The name segment after `form-data` gives the name back. */
  lemma {:induction false} NameSegmentGivesName(name: string)
    requires Trim(name, IsWhitespace) == name
    ensures DispositionName(["form-data", " name=\"" + name + "\""]) == name
  {
    var nameSegment := " name=\"" + name + "\"";
    assert nameSegment == " " + NAME_PREFIX + name + "\"";
    QuotedSegment(NAME_PREFIX, name);
    assert ["form-data", nameSegment][1] == nameSegment;
  }

  /** The name segment of a form-data disposition gives the name back. */
  lemma {:induction false} NameRoundTrip(name: string, filename: Option<string>)
    requires ';' !in name && Trim(name, IsWhitespace) == name
    requires filename.Some? ==> ';' !in filename.value
    ensures DispositionName(Split(FormDataDisposition(name, filename), ';')) == name
  {
    var front := ["form-data", " name=\"" + name + "\""];
    DispositionSegments(name, filename);
    NameSegmentGivesName(name);
    if filename.Some? {
      var fileSegment := " filename=\"" + filename.value + "\"";
      var segments := front + [fileSegment];
      FileSegmentIsNotName(filename.value);
      assert segments[..2] == front && segments[2] == fileSegment;
      assert DispositionName(segments) == DispositionName(front);
    }
  }

  /** The file segment of a file part's disposition gives `@` and the file
      name back. */
  lemma {:induction false} FileRoundTrip(name: string, filename: string)
    requires ';' !in name
    requires ';' !in filename && Trim(filename, IsWhitespace) == filename
    ensures DispositionFile(Split(FormDataDisposition(name, Some(filename)), ';')) == "@" + filename
  {
    DispositionSegments(name, Some(filename));
    var fileSegment := " filename=\"" + filename + "\"";
    assert fileSegment == " " + FILENAME_PREFIX + filename + "\"";
    QuotedSegment(FILENAME_PREFIX, filename);
  }

  /** Round trip of the part name and value: a part whose last header is the
      disposition built for `name` (and `filename`) gives back `-F
      "name=@filename"` for a file and `-F "name=<content>"` for text. */
  lemma {:induction false} FormDataRoundTrip(name: string, filename: Option<string>, header: string, body: ReadResult)
    requires ';' !in name && Trim(name, IsWhitespace) == name
    requires filename.Some? ==> ';' !in filename.value && Trim(filename.value, IsWhitespace) == filename.value
    requires filename.None? ==> '=' !in name
    ensures PartToken(Part(Some([Field(header, FormDataDisposition(name, filename))]), body))
         == Success(Some(MultipartToken(name, if filename.Some? then "@" + filename.value else BodyAsString(body))))
  {
    NameRoundTrip(name, filename);
    if filename.Some? {
      FileDispositionIsFile(name, filename.value);
      FileRoundTrip(name, filename.value);
    } else {
      TextDispositionIsNotFile(name);
    }
  }
}
