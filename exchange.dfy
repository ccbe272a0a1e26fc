/** One request/response exchange with a target, and how its result is classified. */
module Exchange {
  import opened Optional
  import opened Urls

  /** An event message, known only by an opaque identity. */
  datatype Message = Message(id: nat)

  /** A header set: header name to its values. */
  type Headers = map<string, seq<string>>

  /** The content mode a response body was found to be in. */
  datatype Encoding = EncodingUnknown | EncodingBinary | EncodingStructured | EncodingEvent

  /** One outgoing request: a target, the message it carries and the additional headers written with it. */
  datatype Request = Request(target: Url, message: Message, headers: Headers)

  /** The step at which an exchange stopped before any response was obtained. */
  datatype Stage =
    | BuildRequest   // creating the request for the target URL failed
    | WriteRequest   // writing the message and headers into the request failed
    | SendRequest    // the transport obtained no response (connection, timeout, cancellation)

  /** What the transport, and the server behind it, produce for one request. */
  datatype Wire =
    | Aborted(stage: Stage)
    | Response(status: int, encoding: Encoding, body: Message, header: Headers)

  datatype ExecError = NotSent(stage: Stage) | UnexpectedStatus(status: int)

  /** The outcome of one exchange: an error, or success with the decoded response message (absent when the
      body is not an event) and the headers to pass on with it. */
  datatype ExecResult = Failed(error: ExecError) | Delivered(response: Option<Message>, headers: Headers)

  /** What the dispatcher relies on but does not define. `sender(k, req)` stands for the dispatcher's HTTP
      sender and the servers behind it: what the transport reports for the k-th exchange of the current
      dispatch call. `passThrough` stands for the package's pass-through header policy: it selects the
      response headers that may reach the next hop. */
  datatype Collaborators = Collaborators(sender: (nat, Request) -> Wire, passThrough: Headers -> Headers)

  /** A response status is rejected unless it is 2xx. */
  predicate IsFailure(status: int)
  {
    status < 200 || 300 <= status
  }

  /** The k-th exchange of a dispatch call: it fails when the request is not sent or the status is not 2xx;
      otherwise it yields the response message, or nothing when the body has no event encoding. */
  function ExecuteRequest(d: Collaborators, k: nat, req: Request): (r: ExecResult)
    ensures var w := d.sender(k, req);
      && (r.Failed? <==> w.Aborted? || IsFailure(w.status))
      && (w.Aborted? ==> r.error == NotSent(w.stage))
      && (w.Response? && r.Failed? ==> r.error == UnexpectedStatus(w.status))
      && (r.Delivered? ==> 200 <= w.status < 300)
      && (r.Delivered? ==> (r.response.Some? <==> w.encoding != EncodingUnknown))
      && (r.Delivered? && r.response.Some? ==> r.response.value == w.body && r.headers == d.passThrough(w.header))
      && (r.Delivered? && r.response.None? ==> r.headers == map[])
  {
    match d.sender(k, req)
    case Aborted(stage) => Failed(NotSent(stage))
    case Response(status, encoding, body, header) =>
      if IsFailure(status) then Failed(UnexpectedStatus(status))
      else if encoding == EncodingUnknown then Delivered(None, map[])
      else Delivered(Some(body), d.passThrough(header))
  }
}
