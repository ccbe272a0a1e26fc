/** The dispatch engine: destination hop, reply hop, dead-letter fallback and the finish-on-exit list. */
module Dispatcher {
  import opened Optional
  import opened Urls
  import opened Exchange

  /** The role of a target within one dispatch call. */
  datatype Hop = ToDestination | ToReply | ToDeadLetter

  /** One exchange made during a dispatch call: the hop, the request and its classified result. */
  datatype Call = Call(hop: Hop, request: Request, result: ExecResult)

  /** Why a dispatch call failed, naming the (sanitized) targets whose exchanges failed. */
  datatype DispatchError =
    | DestinationFailed(destination: Url, cause: ExecError)
    | DestinationAndDeadLetterFailed(destination: Url, cause: ExecError, deadLetter: Url, deadLetterCause: ExecError)
    | ReplyFailed(reply: Url, cause: ExecError)
    | ReplyAndDeadLetterFailed(reply: Url, cause: ExecError, deadLetter: Url, deadLetterCause: ExecError)

  /** Everything a dispatch call determines: its error result, the messages it finishes (in order)
      and the exchanges it makes (in order). */
  datatype Outcome = Outcome(err: Option<DispatchError>, toFinish: seq<Message>, log: seq<Call>)

  /** The message an exchange hands over to the dispatcher, which then has to finish it. */
  function ResponseOf(r: ExecResult): seq<Message>
  {
    if r.Delivered? && r.response.Some? then [r.response.value] else []
  }

  /** The exchange made after the exchanges in `log`. */
  function Attempt(d: Collaborators, log: seq<Call>, hop: Hop, req: Request): Call
  {
    Call(hop, req, ExecuteRequest(d, |log|, req))
  }

  /** What follows a failed destination or reply exchange: the failure itself when there is no dead-letter
      sink; otherwise one attempt to the dead-letter sink with the inbound message, whose success absorbs
      the failure. */
  function AfterFailure(d: Collaborators, failed: Call, deadLetter: Option<Url>, initial: Message,
                        headers: Headers, toFinish: seq<Message>, log: seq<Call>): Outcome
    requires failed.result.Failed?
  {
    var target, cause := failed.request.target, failed.result.error;
    match deadLetter
    case None =>
      var e := if failed.hop == ToDestination then DestinationFailed(target, cause) else ReplyFailed(target, cause);
      Outcome(Some(e), toFinish, log)
    case Some(dl) =>
      var c := Attempt(d, log, ToDeadLetter, Request(dl, initial, headers));
      if c.result.Failed? then
        var e := if failed.hop == ToDestination then DestinationAndDeadLetterFailed(target, cause, dl, c.result.error)
                 else ReplyAndDeadLetterFailed(target, cause, dl, c.result.error);
        Outcome(Some(e), toFinish, log + [c])
      else
        Outcome(None, toFinish + ResponseOf(c.result), log + [c])
  }

  /** The reply hop, entered with a carried message to forward: the carried message is tracked, and it is
      forwarded to the reply target if there is one. */
  function ReplyHop(d: Collaborators, initial: Message, carried: Message, carriedHeaders: Headers,
                    reply: Option<Url>, deadLetter: Option<Url>, toFinish: seq<Message>, log: seq<Call>): Outcome
  {
    var tracked := toFinish + [carried];
    match reply
    case None => Outcome(None, tracked, log)
    case Some(target) =>
      var c := Attempt(d, log, ToReply, Request(target, carried, carriedHeaders));
      if c.result.Failed? then AfterFailure(d, c, deadLetter, initial, carriedHeaders, tracked, log + [c])
      else Outcome(None, tracked + ResponseOf(c.result), log + [c])
  }

  /** The dispatch policy as a function of the inputs and the transport's answers. */
  function Dispatch(d: Collaborators, initial: Message, headers: Headers,
                    destination: Option<Url>, reply: Option<Url>, deadLetter: Option<Url>): Outcome
  {
    var dst := SanitizeUrl(destination);
    var rep := SanitizeUrl(reply);
    var dl := SanitizeUrl(deadLetter);
    match dst
    case None => ReplyHop(d, initial, initial, headers, rep, dl, [], [])
    case Some(target) =>
      var c := Attempt(d, [], ToDestination, Request(target, initial, headers));
      match c.result
      case Failed(_) => AfterFailure(d, c, dl, initial, headers, [initial], [c])
      case Delivered(None, _) => Outcome(None, [initial], [c])
      case Delivered(Some(m), h) => ReplyHop(d, initial, m, h, rep, dl, [initial], [c])
  }

  /** Dispatches `initialMessage` to the destination, forwards a response to the reply target, falls back to
      the dead-letter sink on failure, and finishes every tracked message once, in tracking order, whichever
      way the body is left. */
  method DispatchMessage(d: Collaborators, initialMessage: Message, initialHeaders: Headers,
                         destination: Option<Url>, reply: Option<Url>, deadLetter: Option<Url>)
    returns (err: Option<DispatchError>, finished: seq<Message>, log: seq<Call>)
    ensures Outcome(err, finished, log) == Dispatch(d, initialMessage, initialHeaders, destination, reply, deadLetter)
  {
    var messagesToFinish: seq<Message> := [];
    err, log := None, [];
    label body: {
      var dst := SanitizeUrl(destination);
      var rep := SanitizeUrl(reply);
      var dl := SanitizeUrl(deadLetter);

      var responseMessage: Option<Message>;
      var responseHeaders: Headers;
      if dst.Some? {
        messagesToFinish := messagesToFinish + [initialMessage];
        var req := Request(dst.value, initialMessage, initialHeaders);
        var res := ExecuteRequest(d, |log|, req);
        log := log + [Call(ToDestination, req, res)];
        if res.Failed? {
          if dl.Some? {
            var dlReq := Request(dl.value, initialMessage, initialHeaders);
            var dlRes := ExecuteRequest(d, |log|, dlReq);
            log := log + [Call(ToDeadLetter, dlReq, dlRes)];
            if dlRes.Failed? {
              err := Some(DestinationAndDeadLetterFailed(dst.value, res.error, dl.value, dlRes.error));
              break body;
            }
            if dlRes.response.Some? {
              messagesToFinish := messagesToFinish + [dlRes.response.value];
            }
            break body;
          }
          err := Some(DestinationFailed(dst.value, res.error));
          break body;
        }
        responseMessage, responseHeaders := res.response, res.headers;
      } else {
        responseMessage, responseHeaders := Some(initialMessage), initialHeaders;
      }

      if responseMessage.None? {
        break body;
      }
      messagesToFinish := messagesToFinish + [responseMessage.value];

      if rep.None? {
        break body;
      }

      var replyReq := Request(rep.value, responseMessage.value, responseHeaders);
      var replyRes := ExecuteRequest(d, |log|, replyReq);
      log := log + [Call(ToReply, replyReq, replyRes)];
      if replyRes.Failed? {
        if dl.Some? {
          var dlReq := Request(dl.value, initialMessage, responseHeaders);
          var dlRes := ExecuteRequest(d, |log|, dlReq);
          log := log + [Call(ToDeadLetter, dlReq, dlRes)];
          if dlRes.Failed? {
            err := Some(ReplyAndDeadLetterFailed(rep.value, replyRes.error, dl.value, dlRes.error));
            break body;
          }
          if dlRes.response.Some? {
            messagesToFinish := messagesToFinish + [dlRes.response.value];
          }
          break body;
        }
        err := Some(ReplyFailed(rep.value, replyRes.error));
        break body;
      }
      if replyRes.response.Some? {
        messagesToFinish := messagesToFinish + [replyRes.response.value];
      }
    }

    // The deferred cleanup: every tracked message is finished, in the order it was tracked.
    finished := [];
    for i := 0 to |messagesToFinish|
      invariant finished == messagesToFinish[..i]
    {
      finished := finished + [messagesToFinish[i]];
    }
    assert messagesToFinish[..|messagesToFinish|] == messagesToFinish;
  }
}
