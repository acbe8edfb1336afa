/**
 * The values the sensor passes between its components: flows, HTTP messages
 * as far as the core looks at them, and the request/response pair it emits.
 */
module HttpMessages {

  newtype byte = x: int | 0 <= x < 256

  /** One direction of a network- or transport-layer flow, each endpoint in its printed form. */
  datatype Flow = Flow(src: string, dst: string)
  {
    /** The same flow seen from the other side. */
    function Reverse(): Flow { Flow(dst, src) }
  }

  /**
   * A message body as a reader. `Original` is the reader the decoder attached:
   * it yields `content` and then either ends cleanly or, when `fails`, reports
   * a read error. `Buffered` is a reader over bytes already read into memory,
   * which never fails.
   */
  datatype Body =
    | Original(content: seq<byte>, fails: bool)
    | Buffered(content: seq<byte>)
  {
    /** True when reading the body to its end reports an error. */
    predicate ReadFails() { Original? && fails }
  }

  /**
   * A decoded HTTP request: the value of its `Content-Type` header (empty when
   * absent), its declared content length (-1 when unknown), its body and the
   * remote address the sensor fills in.
   */
  datatype Request = Request(contentType: string, contentLength: int, body: Body, remoteAddr: string)

  /** A decoded HTTP response, with the same fields as a request minus the remote address. */
  datatype Response = Response(contentType: string, contentLength: int, body: Body)

  /**
   * A reconstructed transaction: the captured request and response and the
   * connection's endpoints. The classifier may replace the bodies in place.
   */
  class Transaction {
    var request: Request
    var response: Response
    const src: string
    const dst: string
    const srcPort: string
    const dstPort: string

    constructor (request: Request, response: Response, net: Flow, transport: Flow)
      ensures this.request == request && this.response == response
      ensures src == net.src && dst == net.dst
      ensures srcPort == transport.src && dstPort == transport.dst
    {
      this.request := request;
      this.response := response;
      src, dst := net.src, net.dst;
      srcPort, dstPort := transport.src, transport.dst;
    }
  }
}
