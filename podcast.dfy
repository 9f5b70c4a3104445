/** The podcast endpoint (`POST` in the generate-podcast route): it builds a
    multipart/form-data body (RFC 7578; delimiters as in section 5.1.1 of
    RFC 2046) with six fixed fields, sends it to the PlayNote service and
    maps the reply to a JSON response. The request JSON, the random boundary
    suffix, the two environment variables and the upstream reply are
    inputs. */
module Podcast {
  import opened Wrappers
  import Text

  newtype byte = x: int | 0 <= x < 256

  // ---------------------------------------------------------------------
  // The form body
  // ---------------------------------------------------------------------

  const BoundaryPrefix := "----FormBoundary"

  /** `'----FormBoundary' + Math.random().toString(36).slice(2)`, the random
      part being an input. */
  function Boundary(suffix: string): string {
    BoundaryPrefix + suffix
  }

  /** The dash-boundary line that opens every part. */
  function DelimiterLine(boundary: string): string {
    "--" + boundary + "\r\n"
  }

  /** The part's header line and the blank line after it. */
  function DispositionLines(name: string): string {
    "Content-Disposition: form-data; name=\"" + name + "\"\r\n\r\n"
  }

  /** The value and the line break that ends the part. */
  function ValueLine(value: string): string {
    value + "\r\n"
  }

  /** Everything of a part that comes before its value. */
  function PartHeader(boundary: string, name: string): string {
    DelimiterLine(boundary) + DispositionLines(name)
  }

  /** What one `addFormField(name, value)` appends. */
  function Part(boundary: string, name: string, value: string): string {
    PartHeader(boundary, name) + ValueLine(value)
  }

  /** The close delimiter. */
  function CloseDelimiter(boundary: string): string {
    "--" + boundary + "--\r\n"
  }

  /** Appending a part's three lines one after another appends the part. */
  lemma AppendPartLines(before: string, boundary: string, name: string, value: string)
    ensures before + DelimiterLine(boundary) + DispositionLines(name) + ValueLine(value)
      == before + Part(boundary, name, value)
  {
  }

  datatype Field = Field(name: string, value: string)

  /** The parts for `fields`, in order. */
  function Parts(boundary: string, fields: seq<Field>): string
  {
    if fields == [] then []
    else Part(boundary, fields[0].name, fields[0].value) + Parts(boundary, fields[1..])
  }

  /** A complete body: the parts and the close delimiter. */
  function Body(boundary: string, fields: seq<Field>): string {
    Parts(boundary, fields) + CloseDelimiter(boundary)
  }

  const Voice1 := "s3://voice-cloning-zero-shot/baf1ef41-36b6-428c-9bdf-50ba54682bd8/original/manifest.json"
  const Voice2 := "s3://voice-cloning-zero-shot/e040bd1b-f190-4bdb-83f0-75ef85b18f84/original/manifest.json"

  /** The six fields of the PlayNote request, in the order they are added. */
  function PodcastFields(pdfUrl: string): seq<Field> {
    [ Field("sourceFileUrl", pdfUrl),
      Field("synthesisStyle", "podcast"),
      Field("voice1", Voice1),
      Field("voice1Name", "Angelo"),
      Field("voice2", Voice2),
      Field("voice2Name", "Deedee") ]
  }

  /** Appending one field's part to the parts of the earlier ones. */
  lemma {:induction false} PartsAppend(boundary: string, fields: seq<Field>, f: Field)
    ensures Parts(boundary, fields + [f]) == Parts(boundary, fields) + Part(boundary, f.name, f.value)
  {
    if fields == [] {
      assert fields + [f] == [f];
    } else {
      assert (fields + [f])[1..] == fields[1..] + [f];
      PartsAppend(boundary, fields[1..], f);
    }
  }

  lemma {:induction false} PartsConcat(boundary: string, a: seq<Field>, b: seq<Field>)
    ensures Parts(boundary, a + b) == Parts(boundary, a) + Parts(boundary, b)
  {
    if a == [] {
      assert a + b == b;
    } else {
      assert (a + b)[1..] == a[1..] + b;
      PartsConcat(boundary, a[1..], b);
    }
  }

  /** The growing `formBody` of the route: a string that `addFormField`
      extends, together with the fields added so far. */
  class FormBuilder {
    const boundary: string
    var body: string
    ghost var fields: seq<Field>

    /** Before the close delimiter the body is exactly the parts of the
        fields added so far. */
    ghost predicate Valid()
      reads this
    {
      body == Parts(boundary, fields)
    }

    constructor(boundary: string)
      ensures this.boundary == boundary && body == "" && fields == []
      ensures Valid()
    {
      this.boundary := boundary;
      body := "";
      fields := [];
    }

    /** `addFormField(name, value)`: three appends, nothing else changes. */
    method AddFormField(name: string, value: string)
      requires Valid()
      modifies this
      ensures body == old(body) + Part(boundary, name, value)
      ensures fields == old(fields) + [Field(name, value)]
      ensures Valid()
    {
      PartsAppend(boundary, fields, Field(name, value));
      AppendPartLines(body, boundary, name, value);
      body := body + DelimiterLine(boundary);
      body := body + DispositionLines(name);
      body := body + ValueLine(value);
      fields := fields + [Field(name, value)];
    }

    /** `formBody += '--' + boundary + '--\r\n'`. */
    method Close()
      modifies this
      ensures body == old(body) + CloseDelimiter(boundary)
      ensures fields == old(fields)
    {
      body := body + CloseDelimiter(boundary);
    }
  }

  /** Lines 11-27 of the route: the boundary and the finished body. */
  method BuildPodcastBody(pdfUrl: string, suffix: string) returns (boundary: string, body: string)
    ensures boundary == Boundary(suffix)
    ensures body == Body(boundary, PodcastFields(pdfUrl))
  {
    boundary := BoundaryPrefix + suffix;
    var form := new FormBuilder(boundary);
    form.AddFormField("sourceFileUrl", pdfUrl);
    form.AddFormField("synthesisStyle", "podcast");
    form.AddFormField("voice1", Voice1);
    form.AddFormField("voice1Name", "Angelo");
    form.AddFormField("voice2", Voice2);
    form.AddFormField("voice2Name", "Deedee");
    assert form.fields == PodcastFields(pdfUrl);
    form.Close();
    body := form.body;
  }

  // ---------------------------------------------------------------------
  // Reading the body back
  // ---------------------------------------------------------------------

  /** The body with everything but the first value: what precedes it and
      what follows it. Neither depends on the value. */
  function BeforeSourceUrl(boundary: string): string {
    PartHeader(boundary, "sourceFileUrl")
  }

  function AfterSourceUrl(boundary: string): string {
    "\r\n" + Parts(boundary, PodcastFields("")[1..]) + CloseDelimiter(boundary)
  }

  /** A decoder for the podcast form: the `sourceFileUrl` value of a body
      that has the podcast form's shape. */
  function ExtractSourceUrl(boundary: string, body: string): (r: Option<string>)
    ensures r.Some? ==> BeforeSourceUrl(boundary) + r.value + AfterSourceUrl(boundary) == body
  {
    var pre, post := BeforeSourceUrl(boundary), AfterSourceUrl(boundary);
    if |pre| + |post| <= |body| && body[..|pre|] == pre && body[|body| - |post|..] == post
    then
      var v := body[|pre|..|body| - |post|];
      assert pre + v + post == body by {
        assert body == body[..|pre|] + body[|pre|..|body| - |post|] + body[|body| - |post|..];
      }
      Some(v)
    else None
  }

  /** The body splits around the first value, which appears verbatim. */
  lemma BodyAroundSourceUrl(boundary: string, pdfUrl: string)
    ensures Body(boundary, PodcastFields(pdfUrl))
      == BeforeSourceUrl(boundary) + pdfUrl + AfterSourceUrl(boundary)
  {
    var fields := PodcastFields(pdfUrl);
    var rest := Parts(boundary, fields[1..]);
    assert fields[1..] == PodcastFields("")[1..];
    assert Parts(boundary, fields) == Part(boundary, "sourceFileUrl", pdfUrl) + rest;
    assert Part(boundary, "sourceFileUrl", pdfUrl) == BeforeSourceUrl(boundary) + pdfUrl + "\r\n";
  }

  /** Round trip: the decoder recovers any `pdfUrl` from the body built for
      it, whatever characters it holds (it is not escaped, but its position
      is fixed). */
  lemma ExtractBuiltSourceUrl(boundary: string, pdfUrl: string)
    ensures ExtractSourceUrl(boundary, Body(boundary, PodcastFields(pdfUrl))) == Some(pdfUrl)
  {
    var pre, post := BeforeSourceUrl(boundary), AfterSourceUrl(boundary);
    var body := Body(boundary, PodcastFields(pdfUrl));
    BodyAroundSourceUrl(boundary, pdfUrl);
    assert body[..|pre|] == pre;
    assert body[|body| - |post|..] == post;
    assert body[|pre|..|body| - |post|] == pdfUrl;
  }

  /** Different URLs give different bodies. */
  lemma BodyDeterminesSourceUrl(boundary: string, u: string, v: string)
    requires Body(boundary, PodcastFields(u)) == Body(boundary, PodcastFields(v))
    ensures u == v
  {
    ExtractBuiltSourceUrl(boundary, u);
    ExtractBuiltSourceUrl(boundary, v);
  }

  /** The body splits at field `k` into the parts before it, its own part
      and the parts after it, and ends with the close delimiter. */
  lemma BodySplitsAtField(b: string, fields: seq<Field>, k: nat)
    requires k < |fields|
    ensures Body(b, fields) == Parts(b, fields[..k]) + Part(b, fields[k].name, fields[k].value)
      + Parts(b, fields[k + 1..]) + CloseDelimiter(b)
  {
    var front, back := fields[..k], fields[k..];
    assert fields == front + back;
    PartsConcat(b, front, back);
    assert back[1..] == fields[k + 1..];
    assert Parts(b, back) == Part(b, fields[k].name, fields[k].value) + Parts(b, fields[k + 1..]);
  }

  /** Every part opens with the delimiter line of the body's boundary. */
  lemma PartOpensWithDelimiter(b: string, name: string, value: string)
    ensures |DelimiterLine(b)| <= |Part(b, name, value)|
    ensures Part(b, name, value)[..|DelimiterLine(b)|] == DelimiterLine(b)
  {
    var d := DelimiterLine(b);
    var rest := DispositionLines(name) + ValueLine(value);
    assert Part(b, name, value) == d + rest;
  }

  /** Every boundary begins with `----FormBoundary`. */
  lemma BoundaryHasPrefix(suffix: string)
    ensures |Boundary(suffix)| >= |BoundaryPrefix| && Boundary(suffix)[..|BoundaryPrefix|] == BoundaryPrefix
  {
  }

  // ---------------------------------------------------------------------
  // UTF-8 and the Content-Length header
  // ---------------------------------------------------------------------

  /** The UTF-8 encoding of one Unicode scalar value (section 3 of RFC 3629):
      the length the code point's range calls for, an ASCII byte standing
      for itself, a lead byte that announces the length, and continuation
      bytes of the form `10xxxxxx`. */
  function EncodeChar(c: char): (r: seq<byte>)
    ensures |r| == (if c as int < 0x80 then 1 else if c as int < 0x800 then 2 else if c as int < 0x10000 then 3 else 4)
    ensures |r| == 1 ==> r[0] as int == c as int
    ensures |r| == 2 ==> 0xC2 <= r[0] as int <= 0xDF
    ensures |r| == 3 ==> 0xE0 <= r[0] as int <= 0xEF
    ensures |r| == 4 ==> 0xF0 <= r[0] as int <= 0xF4
    ensures forall k :: 1 <= k < |r| ==> 0x80 <= r[k] as int < 0xC0
  {
    var n := c as int;
    if n < 0x80 then [n as byte]
    else if n < 0x800 then [(0xC0 + n / 64) as byte, (0x80 + n % 64) as byte]
    else if n < 0x10000 then
      [(0xE0 + n / 4096) as byte, (0x80 + n / 64 % 64) as byte, (0x80 + n % 64) as byte]
    else
      [(0xF0 + n / 262144) as byte, (0x80 + n / 4096 % 64) as byte,
       (0x80 + n / 64 % 64) as byte, (0x80 + n % 64) as byte]
  }

  /** Reads back one encoded scalar value. */
  function DecodeChar(bs: seq<byte>): int
    requires 1 <= |bs| <= 4
  {
    var b := bs[0] as int;
    if |bs| == 1 then b
    else if |bs| == 2 then (b - 0xC0) * 64 + (bs[1] as int - 0x80)
    else if |bs| == 3 then ((b - 0xE0) * 64 + (bs[1] as int - 0x80)) * 64 + (bs[2] as int - 0x80)
    else (((b - 0xF0) * 64 + (bs[1] as int - 0x80)) * 64 + (bs[2] as int - 0x80)) * 64 + (bs[3] as int - 0x80)
  }

  /** Each character's bytes decode back to it: the encoding loses nothing. */
  lemma DecodeEncodeChar(c: char)
    ensures DecodeChar(EncodeChar(c)) == c as int
  {
    var n := c as int;
    if n >= 0x10000 {
      assert n == ((n / 262144 * 64 + n / 4096 % 64) * 64 + n / 64 % 64) * 64 + n % 64;
    } else if n >= 0x800 {
      assert n == (n / 4096 * 64 + n / 64 % 64) * 64 + n % 64;
    }
  }

  /** `Buffer.from(s, 'utf8')`. */
  function Utf8Encode(s: string): (r: seq<byte>)
    ensures |r| >= |s|
  {
    if s == [] then [] else EncodeChar(s[0]) + Utf8Encode(s[1..])
  }

  lemma {:induction false} Utf8EncodeConcat(a: string, b: string)
    ensures Utf8Encode(a + b) == Utf8Encode(a) + Utf8Encode(b)
  {
    if a != [] {
      assert (a + b)[1..] == a[1..] + b;
      Utf8EncodeConcat(a[1..], b);
    } else {
      assert a + b == b;
    }
  }

  /** An ASCII string takes one byte per character. */
  lemma {:induction false} AsciiByteLength(s: string)
    requires forall i :: 0 <= i < |s| ==> s[i] as int < 0x80
    ensures |Utf8Encode(s)| == |s|
  {
    if s != [] {
      AsciiByteLength(s[1..]);
    }
  }

  /** `Buffer.byteLength(s)`. */
  function ByteLength(s: string): nat {
    |Utf8Encode(s)|
  }

  // ---------------------------------------------------------------------
  // The upstream request
  // ---------------------------------------------------------------------

  datatype Header = Header(name: string, value: string)

  datatype FetchRequest = FetchRequest(url: string, httpMethod: string, headers: seq<Header>, body: string)

  const PlayNotesUrl := "https://api.play.ai/api/v1/playnotes"

  /** The `fetch` call of lines 29-39; the two credentials come from the
      environment. */
  function PlayNoteRequest(apiKey: string, userId: string, boundary: string, body: string): FetchRequest {
    FetchRequest(PlayNotesUrl, "POST",
      [ Header("AUTHORIZATION", apiKey),
        Header("X-USER-ID", userId),
        Header("accept", "application/json"),
        Header("Content-Type", "multipart/form-data; boundary=" + boundary),
        Header("Content-Length", Text.NatToString(ByteLength(body))) ],
      body)
  }

  /** The Content-Type header names the boundary the body was built with,
      and the Content-Length header reads back as the body's byte length. */
  lemma HeadersDescribeBody(apiKey: string, userId: string, boundary: string, body: string)
    ensures var req := PlayNoteRequest(apiKey, userId, boundary, body);
      && req.url == PlayNotesUrl && req.httpMethod == "POST" && req.body == body
      && req.headers[3].name == "Content-Type"
      && req.headers[3].value == "multipart/form-data; boundary=" + boundary
      && req.headers[4].name == "Content-Length"
      && Text.ParseDecimal(req.headers[4].value) == |Utf8Encode(body)|
  {
    Text.ParseNatToString(ByteLength(body));
  }

  // ---------------------------------------------------------------------
  // The JSON response
  // ---------------------------------------------------------------------

  datatype Json =
    | JNull
    | JBool(b: bool)
    | JNumber(n: int)
    | JString(s: string)
    | JArray(items: seq<Json>)
    | JObject(members: map<string, Json>)

  /** A `NextResponse.json` reply; keys whose value is `undefined` are left
      out of the body, as `JSON.stringify` does. */
  datatype Response = Response(status: nat, body: map<string, Json>)

  /** `await request.json()`: a parse error, or the `pdfUrl` member as text
      (absent: `None`). */
  datatype RequestJson = Malformed(message: string) | Parsed(pdfUrl: Option<string>)

  /** The outcome of the `fetch`: a thrown network error, or a reply with its
      `ok` flag, its text (read only when not ok) and its parsed JSON object
      (an error message when it does not parse). */
  datatype Upstream =
    | NetworkError(message: string)
    | Reply(ok: bool, text: string, json: Result<map<string, Json>>)

  /** A template literal renders a missing value as `undefined`. */
  function PdfUrlText(pdfUrl: Option<string>): string {
    match pdfUrl
    case None => "undefined"
    case Some(u) => u
  }

  /** The catch block. */
  function ErrorResponse(message: string): Response {
    Response(500, map["error" := JString("Failed to process request"), "details" := JString(message)])
  }

  /** Response keys and the reply members they copy. */
  const CopiedMembers: seq<(string, string)> := [
    ("playNoteId", "id"), ("ownerId", "ownerId"), ("name", "name"),
    ("sourceFileUrls", "sourceFileUrls"), ("synthesisStyle", "synthesisStyle"),
    ("voice1", "voice1"), ("voice2", "voice2"), ("requestedAt", "requestedAt")]

  function CopyMembers(data: map<string, Json>, pairs: seq<(string, string)>): (r: map<string, Json>)
    ensures forall k :: k in r ==> exists i :: 0 <= i < |pairs| && pairs[i].0 == k && pairs[i].1 in data
  {
    if pairs == [] then map[]
    else
      var rest := CopyMembers(data, pairs[1..]);
      var (key, member) := pairs[0];
      if member in data then rest[key := data[member]] else rest
  }

  /** The success body. */
  function SuccessBody(data: map<string, Json>): map<string, Json> {
    CopyMembers(data, CopiedMembers)["success" := JBool(true)]["status" := JString("generating")]
  }

  /** Lines 41-68 once the request has been sent. */
  function RespondTo(upstream: Upstream): Response {
    match upstream
    case NetworkError(m) => ErrorResponse(m)
    case Reply(ok, text, json) =>
      if !ok then ErrorResponse("Failed to generate podcast: " + text)
      else match json
        case Err(m) => ErrorResponse(m)
        case Ok(data) => Response(200, SuccessBody(data))
  }

  /** `POST`: nothing is sent when the request body does not parse;
      otherwise the PlayNote request is built and its outcome mapped. */
  method Post(request: RequestJson, suffix: string, apiKey: string, userId: string, upstream: Upstream)
    returns (sent: Option<FetchRequest>, response: Response)
    ensures request.Malformed? ==> sent == None && response == ErrorResponse(request.message)
    ensures request.Parsed? ==>
      var b := Boundary(suffix);
      && sent == Some(PlayNoteRequest(apiKey, userId, b, Body(b, PodcastFields(PdfUrlText(request.pdfUrl)))))
      && response == RespondTo(upstream)
  {
    if request.Malformed? {
      return None, ErrorResponse(request.message);
    }
    var boundary, body := BuildPodcastBody(PdfUrlText(request.pdfUrl), suffix);
    sent := Some(PlayNoteRequest(apiKey, userId, boundary, body));
    response := RespondTo(upstream);
  }

  /** With distinct response keys, each key is present exactly when its
      member is, and then holds that member's value. */
  lemma {:induction false} CopyMembersSpec(data: map<string, Json>, pairs: seq<(string, string)>, i: nat)
    requires i < |pairs|
    requires forall j, k :: 0 <= j < k < |pairs| ==> pairs[j].0 != pairs[k].0
    ensures pairs[i].0 in CopyMembers(data, pairs) <==> pairs[i].1 in data
    ensures pairs[i].1 in data ==> CopyMembers(data, pairs)[pairs[i].0] == data[pairs[i].1]
  {
    if i > 0 {
      CopyMembersSpec(data, pairs[1..], i - 1);
    }
  }

  /** On an OK reply with a JSON object: status 200, `success: true`,
      `status: 'generating'`, and each copied member carried over unchanged
      (absent members stay absent); no other keys. */
  lemma SuccessCopiesReply(text: string, data: map<string, Json>)
    ensures var r := RespondTo(Reply(true, text, Ok(data)));
      && r.status == 200
      && r.body["success"] == JBool(true)
      && r.body["status"] == JString("generating")
      && (forall i :: 0 <= i < |CopiedMembers| ==>
            (CopiedMembers[i].0 in r.body <==> CopiedMembers[i].1 in data)
            && (CopiedMembers[i].1 in data ==> r.body[CopiedMembers[i].0] == data[CopiedMembers[i].1]))
      && (forall k :: k in r.body ==>
            (k == "success" || k == "status" || exists i :: 0 <= i < |CopiedMembers| && CopiedMembers[i].0 == k))
  {
    forall i | 0 <= i < |CopiedMembers|
      ensures CopiedMembers[i].0 in CopyMembers(data, CopiedMembers) <==> CopiedMembers[i].1 in data
      ensures CopiedMembers[i].1 in data ==> CopyMembers(data, CopiedMembers)[CopiedMembers[i].0] == data[CopiedMembers[i].1]
    {
      CopyMembersSpec(data, CopiedMembers, i);
    }
  }

  /** A non-OK reply or a thrown error gives HTTP 500 with the fixed error
      text and the error's message as details. */
  lemma FailuresGive500(upstream: Upstream)
    requires !(upstream.Reply? && upstream.ok && upstream.json.Ok?)
    ensures var r := RespondTo(upstream);
      && r.status == 500
      && r.body.Keys == {"error", "details"}
      && r.body["error"] == JString("Failed to process request")
      && r.body["details"] == JString(
           if upstream.NetworkError? then upstream.message
           else if !upstream.ok then "Failed to generate podcast: " + upstream.text
           else upstream.json.message)
  {
  }
}
