/** Requests, responses and reserved metadata keys (include/nexus/rpc, src/rpc). */
module RpcMessage {
  import opened Basics
  import opened Metadata

  datatype Request = Request(service: bytes, rpcMethod: bytes, metadata: Meta, body: bytes, requestId: u64)

  datatype StatusCode =
    | Ok | InvalidArgument | DeadlineExceeded | NotFound
    | ResourceExhausted | UnsupportedCompression | Unavailable | Internal

  datatype Status = Status(code: StatusCode, message: bytes)

  datatype Response = Response(status: Status, metadata: Meta, body: bytes)

  const SERVICE_KEY := Ascii("nexus.service")
  const METHOD_KEY := Ascii("nexus.method")
  const DEADLINE_KEY := Ascii("deadline_unix_ms")
  const STATUS_CODE_KEY := Ascii("nexus.status_code")
  const STATUS_MESSAGE_KEY := Ascii("nexus.status_message")

  /** static_cast<int>(code) */
  function CodeNumber(c: StatusCode): nat {
    match c
    case Ok => 0
    case InvalidArgument => 1
    case DeadlineExceeded => 2
    case NotFound => 3
    case ResourceExhausted => 4
    case UnsupportedCompression => 5
    case Unavailable => 6
    case Internal => 7
  }

  function CodeOf(n: nat): (c: StatusCode)
    requires n <= 7
    ensures CodeNumber(c) == n
  {
    match n
    case 0 => Ok
    case 1 => InvalidArgument
    case 2 => DeadlineExceeded
    case 3 => NotFound
    case 4 => ResourceExhausted
    case 5 => UnsupportedCompression
    case 6 => Unavailable
    case _ => Internal
  }

  lemma {:induction false} KeysDistinct()
    ensures SERVICE_KEY != METHOD_KEY && STATUS_CODE_KEY != STATUS_MESSAGE_KEY
    ensures DEADLINE_KEY != SERVICE_KEY && DEADLINE_KEY != METHOD_KEY
  {
    assert |SERVICE_KEY| == 13 && |METHOD_KEY| == 12 && |DEADLINE_KEY| == 16;
    assert |STATUS_CODE_KEY| == 17 && |STATUS_MESSAGE_KEY| == 20;
  }
}
