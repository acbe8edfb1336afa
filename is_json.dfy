/**
 * The content classifier: decides whether a transaction carries JSON, first
 * from the two Content-Type headers and then by sniffing bodies whose declared
 * length is within a bound, putting back every body it reads.
 */
module IsJson {
  import opened HttpMessages

  /**
   * What media-type parsing returns for a header value: the media type (which
   * the parser may return even alongside an error) and whether it succeeded.
   */
  datatype MediaType = MediaType(mediaType: string, parsed: bool)

  predicate HasSuffix(s: string, suffix: string)
  {
    |suffix| <= |s| && s[|s| - |suffix|..] == suffix
  }

  /** The header rule: an exact, successfully parsed application/json, or any media type ending in +json. */
  predicate HeaderSaysJson(contentType: string, parse: string -> MediaType)
  {
    var m := parse(contentType);
    (m.parsed && m.mediaType == "application/json") || HasSuffix(m.mediaType, "+json")
  }

  /** The content a body reader yields, and with it whether reading it to the end fails. */
  function ReadAll(body: Body): (seq<byte>, bool)
  {
    (body.content, body.ReadFails())
  }

  /** The rule that decides a classification, in the order the rules are tried. */
  datatype Decision =
    | HeaderRule
    | RequestReadError
    | RequestBodyJson
    | ResponseReadError
    | ResponseBodyJson
    | NotJson
  {
    predicate IsJson() { HeaderRule? || RequestBodyJson? || ResponseBodyJson? }
  }

  /** The first rule that fires for a request/response pair; a body is sniffed only when its declared length is at most the bound. */
  function Decide(request: Request, response: Response, maxContentLength: int,
                  parse: string -> MediaType, validJson: seq<byte> -> bool): Decision
  {
    if HeaderSaysJson(request.contentType, parse) || HeaderSaysJson(response.contentType, parse) then HeaderRule
    else if request.contentLength <= maxContentLength && request.body.ReadFails() then RequestReadError
    else if request.contentLength <= maxContentLength && validJson(request.body.content) then RequestBodyJson
    else if response.contentLength <= maxContentLength && response.body.ReadFails() then ResponseReadError
    else if response.contentLength <= maxContentLength && validJson(response.body.content) then ResponseBodyJson
    else NotJson
  }

  /** Whether deciding reads the request body: every rule after the header rule does, when the length allows. */
  predicate ReadsRequestBody(d: Decision, request: Request, maxContentLength: int)
  {
    !d.HeaderRule? && request.contentLength <= maxContentLength
  }

  /** Whether deciding reads the response body: the rules after the request ones do, when the length allows. */
  predicate ReadsResponseBody(d: Decision, response: Response, maxContentLength: int)
  {
    (d.ResponseReadError? || d.ResponseBodyJson? || d.NotJson?) && response.contentLength <= maxContentLength
  }

  /**
   * Classifies a transaction as JSON, replacing every body it reads with a
   * reader over the bytes read, so the body's content is unchanged.
   */
  method ClassifyJson(tx: Transaction, maxContentLength: int, parse: string -> MediaType, validJson: seq<byte> -> bool)
    returns (isJson: bool)
    modifies tx
    ensures var d := Decide(old(tx.request), old(tx.response), maxContentLength, parse, validJson);
      && isJson == d.IsJson()
      && tx.request == (if ReadsRequestBody(d, old(tx.request), maxContentLength)
                        then old(tx.request).(body := Buffered(old(tx.request).body.content))
                        else old(tx.request))
      && tx.response == (if ReadsResponseBody(d, old(tx.response), maxContentLength)
                         then old(tx.response).(body := Buffered(old(tx.response).body.content))
                         else old(tx.response))
    ensures tx.request.body.content == old(tx.request.body.content)
    ensures tx.response.body.content == old(tx.response.body.content)
  {
    var contentTypes := [tx.request.contentType, tx.response.contentType];
    for i := 0 to 2
      invariant forall j | 0 <= j < i :: !HeaderSaysJson(contentTypes[j], parse)
      invariant tx.request == old(tx.request) && tx.response == old(tx.response)
    {
      var m := parse(contentTypes[i]);
      if m.parsed && m.mediaType == "application/json" {
        return true;
      }
      if HasSuffix(m.mediaType, "+json") {
        return true;
      }
    }
    assert !HeaderSaysJson(contentTypes[0], parse) && !HeaderSaysJson(contentTypes[1], parse);

    if tx.request.contentLength <= maxContentLength {
      var (bodyBytes, failed) := ReadAll(tx.request.body);
      tx.request := tx.request.(body := Buffered(bodyBytes));
      if failed {
        return false;
      }
      if validJson(bodyBytes) {
        return true;
      }
    }

    if tx.response.contentLength <= maxContentLength {
      var (bodyBytes, failed) := ReadAll(tx.response.body);
      tx.response := tx.response.(body := Buffered(bodyBytes));
      if failed {
        return false;
      }
      if validJson(bodyBytes) {
        return true;
      }
    }

    return false;
  }

  // ---------------------------------------------------------------------------
  // Properties of the decision

  /** An exact application/json on either side decides true, whatever the bodies and lengths. */
  lemma ExactJsonHeaderWins(request: Request, response: Response, maxContentLength: int,
                            parse: string -> MediaType, validJson: seq<byte> -> bool)
    requires parse(request.contentType) == MediaType("application/json", true)
          || parse(response.contentType) == MediaType("application/json", true)
    ensures Decide(request, response, maxContentLength, parse, validJson) == HeaderRule
    ensures !ReadsRequestBody(HeaderRule, request, maxContentLength)
    ensures !ReadsResponseBody(HeaderRule, response, maxContentLength)
  {
  }

  /** A +json suffix on either side decides true even when parsing reported an error. */
  lemma JsonSuffixWinsUnparsed(request: Request, response: Response, maxContentLength: int,
                               parse: string -> MediaType, validJson: seq<byte> -> bool, side: bool)
    requires HasSuffix(parse(if side then request.contentType else response.contentType).mediaType, "+json")
    ensures Decide(request, response, maxContentLength, parse, validJson).IsJson()
  {
  }

  /** application/json returned together with a parse error is no header match: the exact rule needs a clean parse. */
  lemma UnparsedExactTypeIsNoMatch(contentType: string, parse: string -> MediaType)
    requires parse(contentType) == MediaType("application/json", false)
    ensures !HeaderSaysJson(contentType, parse)
  {
    assert "application/json"[|"application/json"| - 5..] != "+json";
  }

  /** A request whose declared length exceeds the bound is never read: its body plays no part. */
  lemma OversizedRequestNotSniffed(request: Request, response: Response, maxContentLength: int,
                                   parse: string -> MediaType, validJson: seq<byte> -> bool, otherBody: Body)
    requires maxContentLength < request.contentLength
    ensures Decide(request, response, maxContentLength, parse, validJson)
         == Decide(request.(body := otherBody), response, maxContentLength, parse, validJson)
    ensures !ReadsRequestBody(Decide(request, response, maxContentLength, parse, validJson), request, maxContentLength)
  {
  }

  /** Likewise for a response whose declared length exceeds the bound. */
  lemma OversizedResponseNotSniffed(request: Request, response: Response, maxContentLength: int,
                                    parse: string -> MediaType, validJson: seq<byte> -> bool, otherBody: Body)
    requires maxContentLength < response.contentLength
    ensures Decide(request, response, maxContentLength, parse, validJson)
         == Decide(request, response.(body := otherBody), maxContentLength, parse, validJson)
    ensures !ReadsResponseBody(Decide(request, response, maxContentLength, parse, validJson), response, maxContentLength)
  {
  }

  /** A failed read of the request body decides false at once: the response is never looked at. */
  lemma RequestReadErrorStops(request: Request, response: Response, otherResponse: Response, maxContentLength: int,
                              parse: string -> MediaType, validJson: seq<byte> -> bool)
    requires !HeaderSaysJson(request.contentType, parse)
    requires !HeaderSaysJson(response.contentType, parse) && !HeaderSaysJson(otherResponse.contentType, parse)
    requires request.contentLength <= maxContentLength && request.body.ReadFails()
    ensures Decide(request, response, maxContentLength, parse, validJson) == RequestReadError
    ensures Decide(request, otherResponse, maxContentLength, parse, validJson) == RequestReadError
    ensures !ReadsResponseBody(RequestReadError, response, maxContentLength)
  {
  }

  /**
   * The decision as one formula rather than a sequence of rules: JSON exactly
   * when a header says so, or the request body is sniffed and valid, or the
   * request did not stop the sniffing and the response body is sniffed and valid.
   */
  lemma DecisionCharacterised(request: Request, response: Response, maxContentLength: int,
                              parse: string -> MediaType, validJson: seq<byte> -> bool)
    ensures var requestSniffed := request.contentLength <= maxContentLength;
            var responseSniffed := response.contentLength <= maxContentLength;
      Decide(request, response, maxContentLength, parse, validJson).IsJson() <==>
        || HeaderSaysJson(request.contentType, parse)
        || HeaderSaysJson(response.contentType, parse)
        || (requestSniffed && !request.body.ReadFails() && validJson(request.body.content))
        || (!(requestSniffed && request.body.ReadFails())
            && responseSniffed && !response.body.ReadFails() && validJson(response.body.content))
  {
  }

  /** With valid JSON in the response, sniffing finds it even after an oversized or non-JSON request. */
  lemma ResponseSniffedAfterRequest(request: Request, response: Response, maxContentLength: int,
                                    parse: string -> MediaType, validJson: seq<byte> -> bool)
    requires maxContentLength < request.contentLength || (!request.body.ReadFails() && !validJson(request.body.content))
    requires response.contentLength <= maxContentLength && !response.body.ReadFails() && validJson(response.body.content)
    ensures Decide(request, response, maxContentLength, parse, validJson).IsJson()
  {
  }

  /** The size bound is inclusive: a body whose declared length equals the bound is sniffed, one byte more is not. */
  lemma SizeBoundInclusive(request: Request, response: Response, maxContentLength: int,
                           parse: string -> MediaType, validJson: seq<byte> -> bool)
    requires !HeaderSaysJson(request.contentType, parse) && !HeaderSaysJson(response.contentType, parse)
    requires !request.body.ReadFails() && validJson(request.body.content)
    ensures request.contentLength == maxContentLength ==> Decide(request, response, maxContentLength, parse, validJson) == RequestBodyJson
    ensures request.contentLength == maxContentLength + 1 ==> Decide(request, response, maxContentLength, parse, validJson) != RequestBodyJson
  {
  }
}
