/** What a plugin hands to the SDK (sdk/host.go, sdk/parser.go). */
module Plugin {
  import opened Machine

  datatype Request = Request(version: bytes, reqType: bytes, domain: bytes, resource: bytes, endpoint: bytes)

  /** A response is shared with the plugin: the SDK fills in a missing status in place. */
  class Response {
    var status: Option<u8>
    var code: Option<i32>
    var result: bytes
    var exception: bytes
    var reqType: bytes
    var endpoint: bytes

    /** `&Response{}`. */
    constructor ()
      ensures status == None && code == None && result == exception == reqType == endpoint == []
    {
      status, code, result, exception, reqType, endpoint := None, None, [], [], [], [];
    }
  }

  datatype Trace = Trace(
    traceId: bytes, spanId: bytes, parentSpanId: bytes, xRequestId: bytes, httpProxyClient: bytes,
    traceIds: seq<bytes>)

  datatype Pair = Pair(key: bytes, val: bytes)

  datatype L7ProtocolInfo = L7ProtocolInfo(
    reqLen: Option<int>, respLen: Option<int>, requestId: Option<u32>, req: Option<Request>, resp: Response?,
    trace: Option<Trace>, kv: seq<Pair>, protocolMerge: bool, isEnd: bool, isAsync: Option<bool>,
    isReversed: Option<bool>, bizType: u8, bizCode: bytes, bizScenario: bytes, bizResponseCode: bytes,
    l7ProtocolStr: bytes)

  /** The zero value of `L7ProtocolInfo`. */
  const NO_L7_INFO :=
    L7ProtocolInfo(None, None, None, None, null, None, [], false, false, None, None, 0, [], [], [], [])

  /** An action: whether to stop the traversal, an error, and the results. */
  datatype Action = Action(isAbort: bool, failed: bool, payloadResult: seq<L7ProtocolInfo>)

  const ACTION_NEXT := Action(false, false, [])

  function ParseActionAbortWithL7Info(infos: seq<L7ProtocolInfo>): Action {
    Action(true, false, infos)
  }
}
