# Flow correlation, service address cache and JSON classifier of a packet-capture HTTP sensor

This project models, in Dafny, the three sequential decision cores of a
sensor that rebuilds HTTP request/response transactions from captured TCP
traffic:

- **The flow table and the session** (`bidirectional_stream.dfy`, module
  `BidirectionalStream`). The stream factory keeps a map from connection key
  to session. The first sighting of a key registers a new session and hands
  back its client-to-server stream. The second sighting takes the session out
  of the map and hands back its server-to-client stream, so a third sighting
  starts a new session. A session reads at most `maxBodySize` bytes per
  direction, decodes each direction, and joins the two results. It either
  sends one transaction or records one diagnostic. It then closes both streams
  and releases its table entry.
- **The service IP cache** (`service_ip_manager.dfy`, module
  `ServiceIpManager`). One refresh cycle stores every address of the
  provider's snapshot and then deletes every held address the snapshot does
  not list. A failed provider call leaves the set alone. The addresses come
  from the listed services' ClusterIPs, skipping `""` and `"None"`.
- **The JSON classifier** (`is_json.dfy`, module `IsJson`, with the unit-test
  table in `is_json_cases.dfy`). The rules are tried in order and the first
  match wins. An exact `application/json` or a `+json` suffix on either
  Content-Type wins first. Next comes a sniff of the request body, then of the
  response body, each only when the declared length is within the bound. Every
  body that is read is replaced by a reader over the same bytes.

`http_messages.dfy` holds the shared values (flows, bodies, requests,
responses, the transaction) and `optional.dfy` the `Option` type.

The foreign pieces are parameters of the model:

- the HTTP request and response decoders (`seq<byte> -> Option<…>`; a decode
  error and a recovered panic are both `None`);
- the media-type parser (`string -> MediaType`, the media type plus whether
  parsing succeeded);
- the JSON validator (`seq<byte> -> bool`);
- the flows' fast hash (`Flow -> bv64`).

What the reassembler delivers to each direction is an input (`Delivered`).
So are the outcome of the cluster query and whether both reader tasks finished
before the two-minute deadline (a boolean).

Where the design description and the code differ, the model follows the code.
The one exception is the close callback that `Session.Run` calls, for which
see "## Findings" and "## Left out".

- **Join timeout.** When the deadline passes, `run` returns straight away
  (src/bidirectional_stream.go:130-135). It records no diagnostic, even if one
  side had been decoded. The design description instead has the session go on
  to evaluate the outcome with the unfinished side treated as missing.
- **Size bound.** The classifier compares the declared `ContentLength`, not
  the actual body length, against the bound (src/is_json.go:24,36). A
  response built without a declared length (0) is therefore always sniffed.

## Model

| member | source | states |
|---|---|---|
| BidirectionalStream.KeyOf | src/bidirectional_stream.go:27 | When the hash gives each of the two flows the same value as its reverse, the key equals the one computed from the reversed flows, so the reply direction has the request direction's key. |
| BidirectionalStream.ReplyDirectionSameKey | src/bidirectional_stream.go:27-31 | With a direction-symmetric fast hash, the reply direction of every connection (both flows reversed) has the same key as its request direction, so the second sighting finds the first one's entry. |
| BidirectionalStream.ReadFull | src/bidirectional_stream.go:85 | The full read never returns more bytes than the buffer or the stream holds. It reports no error exactly when the buffer is full. It reports EOF only when no byte was read, UnexpectedEOF only after some bytes and a clean end, and a stream error otherwise. |
| BidirectionalStream.DecoderInput | src/bidirectional_stream.go:84-94 | The decoder gets `buf[:bytesRead]`. That is at most `maxBodySize` bytes and a prefix of what was delivered. |
| BidirectionalStream.DecoderInputCases | src/bidirectional_stream.go:84-89 | For a non-negative bound, the decoder gets bytes exactly when the buffer fills or a clean end comes after at least one byte (a short read). An empty stream (EOF) or a stream error yields no message. The bytes are the first `maxBodySize` bytes, or all of them after a short read. |
| BidirectionalStream.RemoteAddr | src/bidirectional_stream.go:95-96 | The remote address is the network source, a colon, then the transport source. |
| BidirectionalStream.CaptureRequest | src/bidirectional_stream.go:84-97 | Stated against the delivered bytes: a request is captured exactly when the bound is non-negative, the buffer fills or the stream ends cleanly after at least one byte, and the decoder accepts the first min(`maxBodySize`, delivered) bytes. The captured request has the decoded request's content type, length and body, and `RemoteAddr` netSrc:transportSrc. |
| BidirectionalStream.CaptureResponse | src/bidirectional_stream.go:113-124 | Stated against the delivered bytes: a response is captured under the same conditions, and it is the decoder's result on the first min(`maxBodySize`, delivered) bytes, unchanged. |
| BidirectionalStream.JoinDecision | src/bidirectional_stream.go:150-187 | A transaction is built exactly when both sides are present, from the captured request and response. Otherwise exactly one entry is recorded, carrying the connection's four endpoints. It is a warning that names the missing side when one side is present, and a debug entry when neither is. |
| BidirectionalStream.JoinSymmetric | src/bidirectional_stream.go:158-174 | A missing response and a missing request give warnings of the same level that name opposite sides. |
| BidirectionalStream.TransactionQueue.Send | src/bidirectional_stream.go:180-187 | A send appends the transaction to the channel's contents. |
| BidirectionalStream.DiagnosticLog.Record | src/bidirectional_stream.go:151-173 | A log call appends one entry. |
| BidirectionalStream.ReaderStream.Close | src/bidirectional_stream.go:63-64 | After closing, the stream is closed. |
| BidirectionalStream.StreamFactory.constructor | src/request_and_response.go:48-52 | A new factory has an empty table, with the given channel, bound and hash. |
| BidirectionalStream.StreamFactory.New | src/bidirectional_stream.go:26-50 | For a registered key: returns that session's server-to-client stream and removes only that key. For an unseen key: registers a fresh session (its flows, channel, bound, two fresh, open, distinct streams) under that key only, and returns its client-to-server stream. Every entry stays registered under its own key. |
| BidirectionalStream.StreamFactory.CloseCallback | src/bidirectional_stream.go:40-42 | As written: removes the key, whichever session holds it, and nothing else. |
| BidirectionalStream.StreamFactory.CompareAndDelete | src/bidirectional_stream.go:40-42 | Corrected: removes the key only while it holds the closing session. Afterwards the key no longer maps to that session, and every other entry is unchanged. |
| BidirectionalStream.Session.constructor | src/bidirectional_stream.go:34-44 | A session holds its flows, channel, key and bound, and two fresh, open, distinct streams. |
| BidirectionalStream.Session.Join | src/bidirectional_stream.go:137-187 | After both tasks finish, the log gains exactly the diagnostic of the join outcome. The channel gains one fresh transaction exactly when both sides were captured. It carries the captured request and response and the net/transport source and destination. Otherwise the channel is unchanged. |
| BidirectionalStream.Session.Run | src/bidirectional_stream.go:61-188 | On every path both streams end closed. The table entry is released when it still holds this session; the code as written releases the key whatever it holds (see "## Left out"). No other entry is touched. If both tasks finished in time, the channel and log change as the join of the two captured directions says. If the deadline passed, nothing is sent and nothing is logged. |
| BidirectionalStream.ThreeSightings | src/bidirectional_stream.go:29-49 | A connection's request direction and then its reply direction (both flows reversed) return the two distinct streams, client-to-server and server-to-client, of one session. A third sighting of the key registers a different, fresh session and returns its client-to-server stream. |
| BidirectionalStream.StaleCallbackDropsNewerSession | src/bidirectional_stream.go:40-45 | With the callback as written, an older session closing after its key was reused drops the newer session's entry. The newer session's second direction then gets a stream other than the newer session's server-to-client stream. |
| BidirectionalStream.OwnerCheckedCallbackKeepsNewerSession | src/bidirectional_stream.go:40-45 | With the owner check, the same sequence hands the newer session its own server-to-client stream. |
| HttpMessages.Transaction.constructor | src/request_and_response.go:16-23 | A transaction holds the request, the response, and the network and transport source and destination. |
| ServiceIpManager.RefreshedMembership | src/serviceIpManager.go:45-56 | After a successful refresh an address is held exactly when the snapshot lists it. Listed addresses that were held stay held, and held addresses that are not listed are gone. |
| ServiceIpManager.RefreshIdempotent | src/serviceIpManager.go:45-56 | Refreshing twice with the same snapshot, or with the same failure, leaves what one refresh left. |
| ServiceIpManager.RefreshIgnoresDuplicatesAndOrder | src/serviceIpManager.go:45-56 | Two snapshots that list the same addresses, whatever the repeats and order, leave the same set. |
| ServiceIpManager.Manager.constructor | src/serviceIpManager.go:21-28 | A new manager holds no address. |
| ServiceIpManager.Manager.Refresh | src/serviceIpManager.go:30-59 | After the upsert and evict loops, the set is exactly the snapshot's addresses. On a provider error it is unchanged. The states a concurrent reader can see only grow, up to the old addresses together with the snapshot's, and then only shrink. So a stored snapshot address is never missing during the pass, an evicted address never comes back, and no state holds an address outside the old set and the snapshot. |
| ServiceIpManager.IsServiceIPAfterRefresh | src/serviceIpManager.go:61-64 | A lookup finds an address exactly when the latest successful refresh listed it. A failed cycle in between changes nothing. |
| ServiceIpManager.Listed | src/serviceIpManager.go:49-53 | The inner search returns true exactly when the snapshot lists the address. |
| ServiceIpManager.ClusterIPsMembership | src/serviceIpManager.go:90-95 | An address is extracted exactly when some listed service has it as a ClusterIP other than `""` and `"None"`. |
| ServiceIpManager.ClusterIPsAppend | src/serviceIpManager.go:90-95 | Extraction keeps list order: extracting from two lists joined end to end gives the two extractions joined. |
| ServiceIpManager.ClusterIPsAreReal | src/serviceIpManager.go:92 | No extracted address is `""` or `"None"`. |
| ServiceIpManager.GetServiceIPs | src/serviceIpManager.go:66-98 | A failed cluster query gives an error. Otherwise the result is the listed services' ClusterIPs in order, without `""` and `"None"`, built by the append loop. |
| IsJson.ClassifyJson | src/is_json.go:12-49 | The result is the first rule that fires, in source order. A request body is read exactly when no header rule fired and its declared length is within the bound. A response body is read exactly when the request rules did not decide and its declared length is within the bound. Each body read is replaced by a reader over the same bytes, and nothing else changes. The body contents are unchanged in every case. |
| IsJson.ExactJsonHeaderWins | src/is_json.go:13-18 | A successfully parsed `application/json` on either side gives true whatever the bodies, and no body is read. |
| IsJson.JsonSuffixWinsUnparsed | src/is_json.go:19-21 | A media type ending in `+json` on either side gives true, even when parsing reported an error. |
| IsJson.UnparsedExactTypeIsNoMatch | src/is_json.go:15-16 | `application/json` returned together with a parse error does not satisfy the header rule. |
| IsJson.OversizedRequestNotSniffed | src/is_json.go:24 | A request whose declared length exceeds the bound is not read, and its body has no effect on the result. |
| IsJson.OversizedResponseNotSniffed | src/is_json.go:36 | A response whose declared length exceeds the bound is not read, and its body has no effect on the result. |
| IsJson.RequestReadErrorStops | src/is_json.go:25-29 | A failed read of a sniffed request body gives false at once. The response is not read, and a different response gives the same outcome. |
| IsJson.ResponseSniffedAfterRequest | src/is_json.go:36-46 | A valid JSON response within the bound gives true after an oversized or non-JSON request. |
| IsJson.SizeBoundInclusive | src/is_json.go:24-34 | The bound is inclusive (a signed comparison). A valid request body whose declared length equals the bound decides true. At one more byte, the request rule no longer decides. |
| IsJson.DecisionCharacterised | src/is_json.go:12-49 | The rule order is equivalent to one formula. The result is true exactly when a header says JSON, or a sniffed request body is valid, or the request read did not fail and a sniffed response body is valid. |
| IsJsonCases.HeaderCases | src/is_json_test.go:20-55 | The four Content-Type cases of the test table give their expected results. |
| IsJsonCases.SniffCases | src/is_json_test.go:56-100 | The five header-less cases give their expected results: empty bodies, valid JSON in either body, truncated JSON in either body. |
| IsJsonCases.SuffixCase | src/is_json_test.go:101-109 | `application/geo+json` with an empty body gives true. |
| IsJsonCases.SizeCases | src/is_json_test.go:110-145 | The four size cases give their expected results. The oversized response of the second case is still read, because its declared length is 0, and is rejected as invalid JSON. |

## Left out

- BidirectionalStream.Session.Run: releases its table entry with the
  corrected close callback (`StreamFactory.CompareAndDelete`), not the one the
  code builds (src/bidirectional_stream.go:40-42). The two agree unless a newer
  session holds the key by then; in that case the code deletes the newer entry
  and the model keeps it. The code's behaviour is shown by
  `StreamFactory.CloseCallback` and `StaleCallbackDropsNewerSession`.
- BidirectionalStream.ReaderStream.Close: assumed always to return. The
  reassembler's stream type is not part of this model, so whether closing
  waits for the reassembler to finish the direction is not captured.
- Concurrency. The model covers goroutines, the semaphore, the per-direction
  result channels, `context.WithTimeout` and `sync.Map` atomicity as
  sequential steps. The deadline is one boolean input: whether both reader
  tasks finished in time.
- The transaction channel's capacity. The send that blocks when the channel
  is full (backpressure) is not modelled; `TransactionQueue.Send` always
  appends.
- Semaphore failures (src/bidirectional_stream.go:71-75,100-104,131-133). An
  acquire with a background context within the semaphore's weight cannot fail.
  An acquire that fails under the deadline context fails only by the deadline,
  which is the boolean input.
- The Debug entries each reader task logs for a failed read or decode
  (src/bidirectional_stream.go:87,92,116,121). They are left out because the
  order in which the two tasks log is not determined. The diagnostic log holds
  only the join's entries.
- Panics inside a decoder. A decoder is a total function parameter; a
  recovered panic is the same as a decode error (`None`). The one panic the
  model does show is a negative `maxBodySize`, where making the buffer fails.
- The byte buffer. `make([]byte, maxBodySize)` and the copy into it are
  modelled as taking a prefix of the delivered bytes.
- Packet capture and reassembly. The pcap handle, the BPF filter, the
  assembler loop, the flush ticker, and how bytes reach a `ReaderStream` are
  not modelled. What each direction delivers is an input.
- The packet admission rule (src/request_and_response.go:80) and the sink's
  service-address filter in src/main.go. Both are callers of the cache outside
  the modelled core.
- The fast hash itself. It is a parameter, assumed to give a flow and its
  reverse the same value (the factory's invariant), as the reassembler's
  flows do. The key is the exclusive-or of the
  two hashes, kept as a 64-bit value instead of its decimal string (printing a
  number is injective). Two connections whose keys collide share one table
  entry, as in the source.
- The Kubernetes client setup and listing (src/serviceIpManager.go:66-88).
  The query's outcome is an input to `GetServiceIPs`: the listed services, or
  None for any configuration, client or listing error.
- The one-second refresh ticker and the provider error log line. One call to
  `Manager.Refresh` is one tick.
- The order in which `Range` visits keys. The evict loop picks keys in an
  unspecified order, so the result holds for every order.
- Header lookup and media-type parsing. A message's Content-Type is the value
  `Header.Get` returns ("" when absent), and parsing is a parameter. JSON
  validity is a parameter too.
- `ContentLength` as a 64-bit integer. It is modelled as an unbounded integer;
  the comparison is signed in both.
- The older copies of the factory and session in main.go and src/main.go, and
  the TLS probes under src/libssl and src2. They are not part of this model.

## Findings

| source | as written | input that shows it | evidently intended | confidence | as-written member | corrected member |
|---|---|---|---|---|---|---|
| src/bidirectional_stream.go:40-42 | A session's close callback deletes its key from the table, whatever session is registered under that key by then. | Key K is seen three times before the first session ends. The first two sightings are both directions of one connection; the third is a new connection with the same key (a reused 4-tuple or a hash collision). When the first session closes, it removes the second session's entry, so the second session's server-to-client direction starts yet another session. | Remove the entry only while it still holds the closing session (a compare-and-delete). | not executed; medium | BidirectionalStream.StaleCallbackDropsNewerSession | BidirectionalStream.OwnerCheckedCallbackKeepsNewerSession |

`Session.Run` uses the corrected callback, `StreamFactory.CompareAndDelete`.
`StreamFactory.CloseCallback` keeps the code as written.
