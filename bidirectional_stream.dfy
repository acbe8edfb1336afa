/**
 * The flow table and the per-connection session: the factory that hands each
 * direction of a TCP connection to the right session, the bounded read and
 * decode of each direction, and the join that emits one transaction or one
 * diagnostic.
 */
module BidirectionalStream {
  import opened Optional
  import opened HttpMessages

  /** A connection key: the 64-bit value whose decimal string keys the flow table. */
  datatype FlowKey = FlowKey(hash: bv64)

  /** A fast hash that gives a flow and its reverse the same value, as the reassembler's flows do. */
  ghost predicate DirectionSymmetric(fastHash: Flow -> bv64)
  {
    forall f: Flow {:trigger fastHash(f.Reverse())} :: fastHash(f.Reverse()) == fastHash(f)
  }

  /**
   * The connection key: the exclusive-or of the two flows' fast hashes. With a
   * direction-symmetric hash, the reply direction (both flows reversed) gets
   * the same key as the request direction.
   */
  function KeyOf(fastHash: Flow -> bv64, netFlow: Flow, tcpFlow: Flow): (key: FlowKey)
    ensures fastHash(netFlow.Reverse()) == fastHash(netFlow) && fastHash(tcpFlow.Reverse()) == fastHash(tcpFlow)
      ==> key.hash == fastHash(netFlow.Reverse()) ^ fastHash(tcpFlow.Reverse())
  {
    FlowKey(fastHash(netFlow) ^ fastHash(tcpFlow))
  }

  // ---------------------------------------------------------------------------
  // Reading one direction

  /** How a directional stream ends once the bytes delivered to it are used up. */
  datatype StreamEnd = EndOfStream | StreamError

  /** The bytes the reassembler delivered to one direction, and how that direction ends. */
  datatype Delivered = Delivered(data: seq<byte>, end: StreamEnd)

  /** The error a full read reports. */
  datatype ReadErr = NoError | EOF | UnexpectedEOF | Failed

  datatype ReadResult = ReadResult(bytesRead: nat, err: ReadErr)

  /**
   * A full read into a buffer of `size` bytes: it stops when the buffer is
   * full or the stream ends. A clean end before any byte is EOF, a clean end
   * after some bytes is UnexpectedEOF, and a stream error is passed on.
   */
  function ReadFull(stream: Delivered, size: nat): (r: ReadResult)
    ensures r.bytesRead <= size && r.bytesRead <= |stream.data|
    ensures r.err == NoError <==> r.bytesRead == size
    ensures r.err == EOF ==> r.bytesRead == 0 && stream.end.EndOfStream?
    ensures r.err == UnexpectedEOF ==> 0 < r.bytesRead && stream.end.EndOfStream?
    ensures r.err == Failed ==> stream.end.StreamError?
    ensures r.err != NoError ==> r.bytesRead == |stream.data|
  {
    if size <= |stream.data| then ReadResult(size, NoError)
    else if stream.end.StreamError? then ReadResult(|stream.data|, Failed)
    else if |stream.data| == 0 then ReadResult(0, EOF)
    else ReadResult(|stream.data|, UnexpectedEOF)
  }

  /**
   * The bytes a reader task hands to the HTTP decoder: the first `bytesRead`
   * bytes of its `maxBodySize` buffer, or None when the read reported any error
   * other than UnexpectedEOF. A negative `maxBodySize` makes allocating the
   * buffer fail; the task recovers from that and decodes nothing.
   */
  function DecoderInput(stream: Delivered, maxBodySize: int): (input: Option<seq<byte>>)
    ensures input.Some? ==> 0 <= |input.value| <= maxBodySize && input.value <= stream.data
  {
    if maxBodySize < 0 then None
    else
      var r := ReadFull(stream, maxBodySize);
      if r.err != NoError && r.err != UnexpectedEOF then None
      else Some(stream.data[..r.bytesRead])
  }

  /**
   * When the decoder gets any bytes at all: a full buffer, or a short read that
   * ended cleanly after at least one byte. An empty clean stream (EOF) or a
   * stream error yields nothing.
   */
  lemma DecoderInputCases(stream: Delivered, maxBodySize: int)
    requires 0 <= maxBodySize
    ensures DecoderInput(stream, maxBodySize).Some?
        <==> maxBodySize <= |stream.data| || (0 < |stream.data| && stream.end == EndOfStream)
    ensures DecoderInput(stream, maxBodySize).Some? ==>
        DecoderInput(stream, maxBodySize).value
          == if maxBodySize <= |stream.data| then stream.data[..maxBodySize] else stream.data
  {
  }

  /** The remote address the request task fills in: network source, a colon, transport source. */
  function RemoteAddr(net: Flow, transport: Flow): (addr: string)
    ensures |addr| == |net.src| + 1 + |transport.src|
    ensures addr[..|net.src|] == net.src && addr[|net.src|] == ':' && addr[|net.src| + 1..] == transport.src
  {
    net.src + ":" + transport.src
  }

  /**
   * The client-to-server task: read, decode, and on success fill in the
   * remote address the decoder cannot know. A request is captured exactly
   * when the buffer fills, or the stream ends cleanly after a short read, and
   * the decoder accepts the first min(maxBodySize, delivered) bytes.
   */
  function CaptureRequest(stream: Delivered, maxBodySize: int, readRequest: seq<byte> -> Option<Request>,
                          net: Flow, transport: Flow): (captured: Option<Request>)
    ensures captured.Some? <==>
      && 0 <= maxBodySize
      && (maxBodySize <= |stream.data| || (0 < |stream.data| && stream.end.EndOfStream?))
      && readRequest(stream.data[..if maxBodySize <= |stream.data| then maxBodySize else |stream.data|]).Some?
    ensures captured.Some? ==>
      var decoded := readRequest(stream.data[..if maxBodySize <= |stream.data| then maxBodySize else |stream.data|]).value;
      && captured.value.remoteAddr == RemoteAddr(net, transport)
      && captured.value.contentType == decoded.contentType
      && captured.value.contentLength == decoded.contentLength
      && captured.value.body == decoded.body
  {
    match DecoderInput(stream, maxBodySize)
    case None => None
    case Some(bytes) =>
      match readRequest(bytes)
      case None => None
      case Some(request) => Some(request.(remoteAddr := RemoteAddr(net, transport)))
  }

  /**
   * The server-to-client task: read and decode, nothing added. A response is
   * captured under the same conditions as a request, and is the decoded one.
   */
  function CaptureResponse(stream: Delivered, maxBodySize: int, readResponse: seq<byte> -> Option<Response>)
    : (captured: Option<Response>)
    ensures captured.Some? <==>
      && 0 <= maxBodySize
      && (maxBodySize <= |stream.data| || (0 < |stream.data| && stream.end.EndOfStream?))
      && readResponse(stream.data[..if maxBodySize <= |stream.data| then maxBodySize else |stream.data|]).Some?
    ensures captured.Some? ==>
      captured == readResponse(stream.data[..if maxBodySize <= |stream.data| then maxBodySize else |stream.data|])
  {
    match DecoderInput(stream, maxBodySize)
    case None => None
    case Some(bytes) => readResponse(bytes)
  }

  // ---------------------------------------------------------------------------
  // Joining the two directions

  /** What a session does once both tasks have finished in time. */
  datatype Outcome =
    | Complete(request: Request, response: Response)
    | ResponseOnly
    | RequestOnly
    | NothingCaptured

  function JoinOutcome(request: Option<Request>, response: Option<Response>): Outcome
  {
    if request.None? && response.None? then NothingCaptured
    else if request.None? then ResponseOnly
    else if response.None? then RequestOnly
    else Complete(request.value, response.value)
  }

  datatype Level = Debug | Warn

  datatype Kind = NoRequestOrResponse | ResponseWithoutRequest | RequestWithoutResponse

  /** A log entry about a connection, with its endpoints. */
  datatype Diagnostic = Diagnostic(level: Level, kind: Kind, src: string, dst: string, srcPort: string, dstPort: string)

  /** The entries the join records for an outcome. */
  function Diagnostics(o: Outcome, net: Flow, transport: Flow): seq<Diagnostic>
  {
    match o
    case Complete(_, _) => []
    case ResponseOnly => [Diagnostic(Warn, ResponseWithoutRequest, net.src, net.dst, transport.src, transport.dst)]
    case RequestOnly => [Diagnostic(Warn, RequestWithoutResponse, net.src, net.dst, transport.src, transport.dst)]
    case NothingCaptured => [Diagnostic(Debug, NoRequestOrResponse, net.src, net.dst, transport.src, transport.dst)]
  }

  /**
   * The join's decision table: a transaction exactly when both sides were
   * captured, otherwise exactly one entry, a warning naming the missing side
   * when one side was captured and a debug entry when neither was.
   */
  lemma JoinDecision(request: Option<Request>, response: Option<Response>, net: Flow, transport: Flow)
    ensures var o := JoinOutcome(request, response);
      && (o.Complete? <==> request.Some? && response.Some?)
      && (o.Complete? ==> o.request == request.value && o.response == response.value)
      && |Diagnostics(o, net, transport)| == (if o.Complete? then 0 else 1)
      && (request.Some? && response.None? ==> Diagnostics(o, net, transport)[0].kind == RequestWithoutResponse)
      && (request.None? && response.Some? ==> Diagnostics(o, net, transport)[0].kind == ResponseWithoutRequest)
      && (!o.Complete? ==> (Diagnostics(o, net, transport)[0].level == Debug <==> request.None? && response.None?))
      && (!o.Complete? ==>
            && Diagnostics(o, net, transport)[0].src == net.src
            && Diagnostics(o, net, transport)[0].dst == net.dst
            && Diagnostics(o, net, transport)[0].srcPort == transport.src
            && Diagnostics(o, net, transport)[0].dstPort == transport.dst)
  {
  }

  /** The join treats the two directions alike: swapping which side is missing swaps the warning. */
  lemma JoinSymmetric(request: Request, response: Response, net: Flow, transport: Flow)
    ensures Diagnostics(JoinOutcome(Some(request), None), net, transport)[0].kind == RequestWithoutResponse
    ensures Diagnostics(JoinOutcome(None, Some(response)), net, transport)[0].kind == ResponseWithoutRequest
    ensures Diagnostics(JoinOutcome(Some(request), None), net, transport)[0].level
         == Diagnostics(JoinOutcome(None, Some(response)), net, transport)[0].level
  {
  }

  // ---------------------------------------------------------------------------
  // Shared sinks

  /** The buffered channel transactions are sent on. */
  class TransactionQueue {
    var items: seq<Transaction>

    constructor ()
      ensures items == []
    {
      items := [];
    }

    method Send(t: Transaction)
      modifies this
      ensures items == old(items) + [t]
    {
      items := items + [t];
    }
  }

  /** The structured log the join writes its diagnostics to. */
  class DiagnosticLog {
    var entries: seq<Diagnostic>

    constructor ()
      ensures entries == []
    {
      entries := [];
    }

    method Record(d: Diagnostic)
      modifies this
      ensures entries == old(entries) + [d]
    {
      entries := entries + [d];
    }
  }

  /** One direction's byte stream as the reassembler sees it: open until the session closes it. */
  class ReaderStream {
    var closed: bool

    constructor ()
      ensures !closed
    {
      closed := false;
    }

    method Close()
      modifies this
      ensures closed
    {
      closed := true;
    }
  }

  // ---------------------------------------------------------------------------
  // The flow table

  class StreamFactory {
    var conns: map<FlowKey, Session>
    const queue: TransactionQueue
    const maxBodySize: int
    const fastHash: Flow -> bv64

    /** Every registered session is registered under its own key and belongs to this table. */
    ghost predicate Valid()
      reads this
    {
      && DirectionSymmetric(fastHash)
      && forall k | k in conns :: conns[k].key == k && conns[k].factory == this
    }

    constructor (queue: TransactionQueue, maxBodySize: int, fastHash: Flow -> bv64)
      requires DirectionSymmetric(fastHash)
      ensures Valid() && conns == map[]
      ensures this.queue == queue && this.maxBodySize == maxBodySize && this.fastHash == fastHash
    {
      conns := map[];
      this.queue := queue;
      this.maxBodySize := maxBodySize;
      this.fastHash := fastHash;
    }

    /**
     * The stream the reassembler should feed for a newly seen direction. The
     * first sighting of a key registers a new session and returns its
     * client-to-server stream; the second takes the session out of the table
     * and returns its server-to-client stream. No other entry changes.
     */
    method New(netFlow: Flow, tcpFlow: Flow) returns (stream: ReaderStream)
      requires Valid()
      modifies this
      ensures Valid()
      ensures var key := KeyOf(fastHash, netFlow, tcpFlow);
        if key in old(conns) then
          && stream == old(conns)[key].serverToClient
          && conns == old(conns) - {key}
        else
          && key in conns && fresh(conns[key])
          && fresh(conns[key].clientToServer) && fresh(conns[key].serverToClient)
          && conns[key].clientToServer != conns[key].serverToClient
          && conns == old(conns)[key := conns[key]]
          && stream == conns[key].clientToServer
          && conns[key].net == netFlow && conns[key].transport == tcpFlow
          && conns[key].queue == queue && conns[key].maxBodySize == maxBodySize
          && !conns[key].clientToServer.closed && !conns[key].serverToClient.closed
    {
      var key := KeyOf(fastHash, netFlow, tcpFlow);
      if key in conns {
        // load and delete
        var conn := conns[key];
        conns := conns - {key};
        return conn.serverToClient;
      }
      var s := new Session(netFlow, tcpFlow, queue, this, key, maxBodySize);
      conns := conns[key := s];
      return s.clientToServer;
    }

    /**
     * The close callback as the factory builds it: delete the key, whichever
     * session is registered under it now.
     */
    method CloseCallback(key: FlowKey)
      requires Valid()
      modifies this
      ensures Valid()
      ensures conns == old(conns) - {key}
    {
      conns := conns - {key};
    }

    /**
     * The close callback that removes the entry only while it still holds the
     * closing session, so a newer session under the same key stays registered.
     */
    method CompareAndDelete(key: FlowKey, owner: Session)
      requires Valid()
      modifies this
      ensures Valid()
      ensures key in old(conns) && old(conns)[key] == owner ==> conns == old(conns) - {key}
      ensures !(key in old(conns) && old(conns)[key] == owner) ==> conns == old(conns)
      ensures key !in conns || conns[key] != owner
    {
      if key in conns && conns[key] == owner {
        conns := conns - {key};
      }
    }
  }

  // ---------------------------------------------------------------------------
  // The session

  class Session {
    const net: Flow
    const transport: Flow
    const clientToServer: ReaderStream
    const serverToClient: ReaderStream
    const queue: TransactionQueue
    const factory: StreamFactory
    const key: FlowKey
    const maxBodySize: int

    constructor (net: Flow, transport: Flow, queue: TransactionQueue, factory: StreamFactory, key: FlowKey, maxBodySize: int)
      ensures this.net == net && this.transport == transport
      ensures this.queue == queue && this.factory == factory && this.key == key && this.maxBodySize == maxBodySize
      ensures fresh(clientToServer) && fresh(serverToClient) && clientToServer != serverToClient
      ensures !clientToServer.closed && !serverToClient.closed
    {
      this.net := net;
      this.transport := transport;
      this.queue := queue;
      this.factory := factory;
      this.key := key;
      this.maxBodySize := maxBodySize;
      clientToServer := new ReaderStream();
      serverToClient := new ReaderStream();
    }

    /**
     * The join once both tasks have finished: record the diagnostic for a
     * partial or empty capture, and send the transaction when both sides were
     * captured.
     */
    method Join(request: Option<Request>, response: Option<Response>, log: DiagnosticLog)
      modifies queue, log
      ensures var o := JoinOutcome(request, response);
        && log.entries == old(log.entries) + Diagnostics(o, net, transport)
        && (o.Complete? ==>
              && |queue.items| == |old(queue.items)| + 1
              && queue.items[..|old(queue.items)|] == old(queue.items)
              && var t := queue.items[|old(queue.items)|];
                 fresh(t) && t.request == o.request && t.response == o.response
                 && t.src == net.src && t.dst == net.dst && t.srcPort == transport.src && t.dstPort == transport.dst)
        && (!o.Complete? ==> queue.items == old(queue.items))
    {
      if request.None? && response.None? {
        log.Record(Diagnostic(Debug, NoRequestOrResponse, net.src, net.dst, transport.src, transport.dst));
      } else if request.None? {
        log.Record(Diagnostic(Warn, ResponseWithoutRequest, net.src, net.dst, transport.src, transport.dst));
      } else if response.None? {
        log.Record(Diagnostic(Warn, RequestWithoutResponse, net.src, net.dst, transport.src, transport.dst));
      }

      if request.None? || response.None? {
        return;
      }

      var t := new Transaction(request.value, response.value, net, transport);
      queue.Send(t);
    }

    /**
     * The session's run: both directions are read and decoded, and when both
     * tasks finish before the deadline their results are joined. Whatever
     * happens, both streams are closed and the table entry is released.
     */
    method Run(requestBytes: Delivered, responseBytes: Delivered, finishedBeforeDeadline: bool,
               readRequest: seq<byte> -> Option<Request>, readResponse: seq<byte> -> Option<Response>,
               log: DiagnosticLog)
      requires factory.Valid()
      modifies clientToServer, serverToClient, factory, queue, log
      ensures clientToServer.closed && serverToClient.closed
      ensures factory.Valid()
      ensures key in old(factory.conns) && old(factory.conns)[key] == this ==> factory.conns == old(factory.conns) - {key}
      ensures !(key in old(factory.conns) && old(factory.conns)[key] == this) ==> factory.conns == old(factory.conns)
      ensures var o := JoinOutcome(CaptureRequest(requestBytes, maxBodySize, readRequest, net, transport),
                                   CaptureResponse(responseBytes, maxBodySize, readResponse));
        if finishedBeforeDeadline then
          && log.entries == old(log.entries) + Diagnostics(o, net, transport)
          && (o.Complete? ==>
                && |queue.items| == |old(queue.items)| + 1
                && queue.items[..|old(queue.items)|] == old(queue.items)
                && var t := queue.items[|old(queue.items)|];
                   fresh(t) && t.request == o.request && t.response == o.response
                   && t.src == net.src && t.dst == net.dst && t.srcPort == transport.src && t.dstPort == transport.dst)
          && (!o.Complete? ==> queue.items == old(queue.items))
        else
          log.entries == old(log.entries) && queue.items == old(queue.items)
    {
      var request := CaptureRequest(requestBytes, maxBodySize, readRequest, net, transport);
      var response := CaptureResponse(responseBytes, maxBodySize, readResponse);
      if finishedBeforeDeadline {
        Join(request, response, log);
      }
      // deferred, last registered first
      serverToClient.Close();
      clientToServer.Close();
      factory.CompareAndDelete(key, this);
    }
  }

  // ---------------------------------------------------------------------------
  // Sightings of one key

  /** The reply direction of a connection: both flows reversed. It has the connection's key. */
  lemma ReplyDirectionSameKey(fastHash: Flow -> bv64, netFlow: Flow, tcpFlow: Flow)
    requires DirectionSymmetric(fastHash)
    ensures KeyOf(fastHash, netFlow.Reverse(), tcpFlow.Reverse()) == KeyOf(fastHash, netFlow, tcpFlow)
  {
    assert fastHash(netFlow.Reverse()) == fastHash(netFlow);
    assert fastHash(tcpFlow.Reverse()) == fastHash(tcpFlow);
  }

  /**
   * Three sightings of one key: the request direction and then the reply
   * direction of one connection return the two streams of one session, and a
   * third sighting registers a new session.
   */
  method ThreeSightings(f: StreamFactory, netFlow: Flow, tcpFlow: Flow)
    returns (session: Session, first: ReaderStream, second: ReaderStream, third: ReaderStream)
    requires f.Valid() && KeyOf(f.fastHash, netFlow, tcpFlow) !in f.conns
    modifies f
    ensures f.Valid()
    ensures first == session.clientToServer && second == session.serverToClient && first != second
    ensures fresh(session) && fresh(third) && third != first && third != second
    ensures var key := KeyOf(f.fastHash, netFlow, tcpFlow);
      && key in f.conns && f.conns[key] != session && f.conns[key].clientToServer == third
      && f.conns == old(f.conns)[key := f.conns[key]]
  {
    var key := KeyOf(f.fastHash, netFlow, tcpFlow);
    ReplyDirectionSameKey(f.fastHash, netFlow, tcpFlow);
    first := f.New(netFlow, tcpFlow);
    session := f.conns[key];
    second := f.New(netFlow.Reverse(), tcpFlow.Reverse());
    third := f.New(netFlow, tcpFlow);
  }

  /**
   * The close callback as built deletes whatever is under its key: a session
   * that closes after its key was taken over by a newer session removes the
   * newer one, whose reply direction then starts yet another session.
   */
  method StaleCallbackDropsNewerSession(f: StreamFactory, netFlow: Flow, tcpFlow: Flow)
    returns (newer: Session, fourth: ReaderStream)
    requires f.Valid() && KeyOf(f.fastHash, netFlow, tcpFlow) !in f.conns
    modifies f
    ensures fourth != newer.serverToClient
    ensures !newer.serverToClient.closed
  {
    var key := KeyOf(f.fastHash, netFlow, tcpFlow);
    ReplyDirectionSameKey(f.fastHash, netFlow, tcpFlow);
    var _ := f.New(netFlow, tcpFlow);
    var older := f.conns[key];
    var _ := f.New(netFlow.Reverse(), tcpFlow.Reverse());
    var _ := f.New(netFlow, tcpFlow);
    newer := f.conns[key];
    f.CloseCallback(older.key);
    fourth := f.New(netFlow.Reverse(), tcpFlow.Reverse());
  }

  /** With the owner check, the newer session keeps its entry and receives its reply direction. */
  method OwnerCheckedCallbackKeepsNewerSession(f: StreamFactory, netFlow: Flow, tcpFlow: Flow)
    returns (newer: Session, fourth: ReaderStream)
    requires f.Valid() && KeyOf(f.fastHash, netFlow, tcpFlow) !in f.conns
    modifies f
    ensures fourth == newer.serverToClient
  {
    var key := KeyOf(f.fastHash, netFlow, tcpFlow);
    ReplyDirectionSameKey(f.fastHash, netFlow, tcpFlow);
    var _ := f.New(netFlow, tcpFlow);
    var older := f.conns[key];
    var _ := f.New(netFlow.Reverse(), tcpFlow.Reverse());
    var _ := f.New(netFlow, tcpFlow);
    newer := f.conns[key];
    f.CompareAndDelete(older.key, older);
    fourth := f.New(netFlow.Reverse(), tcpFlow.Reverse());
  }
}
