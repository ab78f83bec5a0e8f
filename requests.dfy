/** The request snapshot every generator reads: method, URL, the ordered and
    duplicate-preserving header list, and an optional body. The HTTP client's
    body objects are reduced to what the generators observe of them. */
module Requests {
  import opened Wrappers
  import opened Text
  import opened HeaderModel

  /** One `name: value` pair of the request's header list. */
  datatype Field = Field(name: string, value: string)

  /** What draining a body into a buffer gives: its text, decoded with the
      body's charset, or the description (`toString()`) of the I/O exception
      that the read threw. */
  datatype ReadResult = Read(text: string) | ReadFailed(exception: string)

  /** One pair of a url-encoded form, already percent-encoded by its producer. */
  datatype EncodedPair = EncodedPair(encodedName: string, encodedValue: string)

  /** One part of a multipart body: its own header list (null for a part
      created without headers) and its content. */
  datatype Part = Part(headers: Option<seq<Field>>, body: ReadResult)

  /** The runtime class of the body object: a `FormBody`, a `MultipartBody`
      (with its computed content length) or any other request body. */
  datatype BodyKind =
    | FormBody(pairs: seq<EncodedPair>)
    | MultipartBody(parts: seq<Part>, contentLength: int)
    | OtherBody

  /** A request body: its declared media type as text (null when it declares
      none), its class, and what reading it gives. */
  datatype Body = Body(contentType: Option<string>, kind: BodyKind, content: ReadResult)

  datatype Request = Request(httpMethod: string, url: string, headers: seq<Field>, body: Option<Body>)

  const ACCEPT_ENCODING: string := "Accept-Encoding"
  const CONTENT_TYPE: string := "Content-Type"

  /** An `Accept-Encoding: gzip` header, both sides compared ignoring case. */
  predicate AcceptsGzip(f: Field) {
    EqualsIgnoreCase(ACCEPT_ENCODING, f.name) && EqualsIgnoreCase("gzip", f.value)
  }

  /** The `compressed` flag: some header asks for gzip. */
  predicate Compressed(fields: seq<Field>) {
    exists i :: 0 <= i < |fields| && AcceptsGzip(fields[i])
  }

  /** The `Header` objects `init` creates, one per field, in order. */
  function ToHeaders(fields: seq<Field>): seq<Header> {
    seq(|fields|, i requires 0 <= i < |fields| => Header(Some(fields[i].name), Some(fields[i].value)))
  }

  /** Some header's name is exactly `name` (case-sensitive). */
  predicate HasName(headers: seq<Header>, name: string) {
    exists i :: 0 <= i < |headers| && headers[i].Name() == Some(name)
  }

  /** A header list built from the request has `name` exactly when some
      request field is named exactly `name`. */
  lemma ToHeadersHasName(fields: seq<Field>, name: string)
    ensures HasName(ToHeaders(fields), name) <==> exists i :: 0 <= i < |fields| && fields[i].name == name
  {
    if exists i :: 0 <= i < |fields| && fields[i].name == name {
      var i :| 0 <= i < |fields| && fields[i].name == name;
      assert ToHeaders(fields)[i].Name() == Some(name);
    }
  }

  /** `containsName`: a linear scan with an early return. */
  method ContainsName(name: string, headers: seq<Header>) returns (found: bool)
    ensures found <==> HasName(headers, name)
  {
    var i := 0;
    while i < |headers|
      invariant 0 <= i <= |headers|
      invariant forall j :: 0 <= j < i ==> headers[j].Name() != Some(name)
    {
      if headers[i].Name() == Some(name) {
        return true;
      }
      i := i + 1;
    }
    return false;
  }

  /** `getBodyAsString`: the body's text, or a diagnostic when the read threw. */
  function BodyAsString(content: ReadResult): string {
    match content
    case Read(text) => text
    case ReadFailed(exception) => "Error while reading body: " + exception
  }

  /** `contentType`: the body's media type as text, null without a body. */
  function ContentTypeOf(body: Option<Body>): Option<string> {
    match body
    case None => None
    case Some(b) => b.contentType
  }

  /** `contentType?.contains(t) == true`. */
  predicate ContentTypeContains(contentType: Option<string>, t: string) {
    contentType.Some? && Contains(contentType.value, t)
  }
}
