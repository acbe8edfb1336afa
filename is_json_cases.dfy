/**
 * The classifier's unit-test table, stated as lemmas about its decision. The
 * media-type parser and the JSON validator are parameters of the model, so
 * each lemma assumes only how they treat the handful of inputs the table uses.
 */
module IsJsonCases {
  import opened HttpMessages
  import opened IsJson

  const JsonBody := "{\"key\": \"value\"}"
  const TruncatedJsonBody := "{\"key\": \"value\""
  const XmlBody := "<key>value</key>"
  const LongBody := seq(1025, _ => 'a')

  /** A string of 8-bit characters as bytes. */
  function Bytes(s: string): (b: seq<byte>)
    requires forall i | 0 <= i < |s| :: s[i] as int < 256
    ensures |b| == |s|
    ensures forall i | 0 <= i < |s| :: b[i] as int == s[i] as int
  {
    seq(|s|, i requires 0 <= i < |s| => s[i] as int as byte)
  }

  /** A test request: the body given to the request constructor sets the declared length. */
  function TestRequest(contentType: string, body: string): Request
    requires forall i | 0 <= i < |body| :: body[i] as int < 256
  {
    Request(contentType, |body|, Original(Bytes(body), false), "")
  }

  /** A test response: built by hand, so its declared length is left at zero. */
  function TestResponse(contentType: string, body: string): Response
    requires forall i | 0 <= i < |body| :: body[i] as int < 256
  {
    Response(contentType, 0, Original(Bytes(body), false))
  }

  /** How the media-type parser and the JSON validator treat the table's inputs. */
  predicate TableInputs(parse: string -> MediaType, validJson: seq<byte> -> bool)
  {
    && parse("") == MediaType("", false)
    && parse("application/json") == MediaType("application/json", true)
    && parse("application/xml") == MediaType("application/xml", true)
    && parse("application/geo+json") == MediaType("application/geo+json", true)
    && validJson(Bytes(JsonBody))
    && !validJson(Bytes(TruncatedJsonBody))
    && !validJson(Bytes(XmlBody))
    && !validJson(Bytes(""))
    && !validJson(Bytes(LongBody))
  }

  function Classified(request: Request, response: Response, parse: string -> MediaType, validJson: seq<byte> -> bool): bool
  {
    Decide(request, response, 1024, parse, validJson).IsJson()
  }

  /** The cases decided by an exact Content-Type, and the XML pair that no rule accepts. */
  lemma HeaderCases(parse: string -> MediaType, validJson: seq<byte> -> bool)
    requires TableInputs(parse, validJson)
    ensures Classified(TestRequest("application/json", JsonBody), TestResponse("application/json", JsonBody), parse, validJson)
    ensures !Classified(TestRequest("application/xml", XmlBody), TestResponse("application/xml", XmlBody), parse, validJson)
    ensures Classified(TestRequest("application/xml", XmlBody), TestResponse("application/json", JsonBody), parse, validJson)
    ensures Classified(TestRequest("application/json", JsonBody), TestResponse("application/xml", XmlBody), parse, validJson)
  {
    assert !HasSuffix("application/xml", "+json") by {
      assert "application/xml"[|"application/xml"| - 5..] != "+json";
    }
  }

  /** The structured-syntax suffix case: an empty body does not matter. */
  lemma SuffixCase(parse: string -> MediaType, validJson: seq<byte> -> bool)
    requires TableInputs(parse, validJson)
    ensures Classified(TestRequest("application/geo+json", ""), TestResponse("", ""), parse, validJson)
  {
    assert HasSuffix("application/geo+json", "+json");
  }

  /** The cases without headers, decided by sniffing the bodies. */
  lemma SniffCases(parse: string -> MediaType, validJson: seq<byte> -> bool)
    requires TableInputs(parse, validJson)
    ensures !Classified(TestRequest("", ""), TestResponse("", ""), parse, validJson)
    ensures Classified(TestRequest("", JsonBody), TestResponse("", ""), parse, validJson)
    ensures Classified(TestRequest("", ""), TestResponse("", JsonBody), parse, validJson)
    ensures !Classified(TestRequest("", TruncatedJsonBody), TestResponse("", ""), parse, validJson)
    ensures !Classified(TestRequest("", ""), TestResponse("", TruncatedJsonBody), parse, validJson)
  {
  }

  /**
   * The cases about the size bound. An oversized request is skipped; the
   * oversized response is still sniffed, because its declared length is zero,
   * and is rejected as invalid JSON.
   */
  lemma SizeCases(parse: string -> MediaType, validJson: seq<byte> -> bool)
    requires TableInputs(parse, validJson)
    ensures !Classified(TestRequest("", LongBody), TestResponse("", ""), parse, validJson)
    ensures !Classified(TestRequest("", ""), TestResponse("", LongBody), parse, validJson)
    ensures Classified(TestRequest("", LongBody), TestResponse("", JsonBody), parse, validJson)
    ensures Classified(TestRequest("", JsonBody), TestResponse("", LongBody), parse, validJson)
    ensures ReadsResponseBody(Decide(TestRequest("", ""), TestResponse("", LongBody), 1024, parse, validJson),
                              TestResponse("", LongBody), 1024)
  {
  }
}
