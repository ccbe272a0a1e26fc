/** What a dispatch call guarantees: which targets it contacts, with what, what it reports and what it finishes. */
module DispatcherProperties {
  import opened Optional
  import opened Urls
  import opened Exchange
  import opened Dispatcher

  /** The roles contacted, in order. */
  function Hops(log: seq<Call>): seq<Hop>
  {
    seq(|log|, i requires 0 <= i < |log| => log[i].hop)
  }

  /** Every message the exchanges in `log` handed over to the dispatcher, in order. */
  function Responses(log: seq<Call>): seq<Message>
  {
    if log == [] then [] else ResponseOf(log[0].result) + Responses(log[1..])
  }

  lemma {:induction false} ResponsesAppend(a: seq<Call>, b: seq<Call>)
    ensures Responses(a + b) == Responses(a) + Responses(b)
  {
    if a == [] {
      assert a + b == b;
    } else {
      assert (a + b)[1..] == a[1..] + b;
      ResponsesAppend(a[1..], b);
    }
  }

  lemma ResponsesSnoc(log: seq<Call>, c: Call)
    ensures Responses(log + [c]) == Responses(log) + ResponseOf(c.result)
  {
    ResponsesAppend(log, [c]);
    assert [c][1..] == [];
  }

  /** The sanitized target of each role. */
  function TargetOf(hop: Hop, destination: Option<Url>, reply: Option<Url>, deadLetter: Option<Url>): Option<Url>
  {
    match hop
    case ToDestination => SanitizeUrl(destination)
    case ToReply => SanitizeUrl(reply)
    case ToDeadLetter => SanitizeUrl(deadLetter)
  }

  /** Each exchange goes to the sanitized target of its role, and its result is the transport's answer to
      that request at that position. */
  lemma ExchangesFollowTransport(d: Collaborators, initial: Message, headers: Headers,
                                 destination: Option<Url>, reply: Option<Url>, deadLetter: Option<Url>)
    ensures var log := Dispatch(d, initial, headers, destination, reply, deadLetter).log;
      forall i :: 0 <= i < |log| ==>
        && TargetOf(log[i].hop, destination, reply, deadLetter) == Some(log[i].request.target)
        && log[i].result == ExecuteRequest(d, i, log[i].request)
  {
  }

  /** The roles contacted form one of seven sequences: the destination if there is one, then the reply
      target if the call got that far, then the dead-letter sink only after a failure. */
  lemma ShapeOfExchanges(d: Collaborators, initial: Message, headers: Headers,
                         destination: Option<Url>, reply: Option<Url>, deadLetter: Option<Url>)
    ensures Hops(Dispatch(d, initial, headers, destination, reply, deadLetter).log) in
      {[], [ToDestination], [ToDestination, ToDeadLetter], [ToDestination, ToReply],
       [ToDestination, ToReply, ToDeadLetter], [ToReply], [ToReply, ToDeadLetter]}
  {
    var log := Dispatch(d, initial, headers, destination, reply, deadLetter).log;
    if |log| == 0 {
      assert Hops(log) == [];
    } else if |log| == 1 {
      assert Hops(log) == [log[0].hop];
    } else if |log| == 2 {
      assert Hops(log) == [log[0].hop, log[1].hop];
    } else {
      assert Hops(log) == [log[0].hop, log[1].hop, log[2].hop];
    }
  }

  /** Hence a call makes at most three exchanges, contacts each role at most once, and contacts no role whose
      target is absent. */
  lemma AtMostOneExchangePerRole(d: Collaborators, initial: Message, headers: Headers,
                                 destination: Option<Url>, reply: Option<Url>, deadLetter: Option<Url>)
    ensures var hops := Hops(Dispatch(d, initial, headers, destination, reply, deadLetter).log);
      && |hops| <= 3
      && multiset(hops)[ToDestination] <= 1
      && multiset(hops)[ToReply] <= 1
      && multiset(hops)[ToDeadLetter] <= 1
      && (destination.None? ==> ToDestination !in hops)
      && (reply.None? ==> ToReply !in hops)
      && (deadLetter.None? ==> ToDeadLetter !in hops)
  {
    ShapeOfExchanges(d, initial, headers, destination, reply, deadLetter);
  }

  /** The dead-letter sink is contacted only right after a failed destination or reply exchange, with the
      inbound message and the headers of the request that failed. */
  lemma DeadLetterCarriesInboundMessage(d: Collaborators, initial: Message, headers: Headers,
                                        destination: Option<Url>, reply: Option<Url>, deadLetter: Option<Url>)
    ensures var log := Dispatch(d, initial, headers, destination, reply, deadLetter).log;
      forall i :: 0 <= i < |log| && log[i].hop == ToDeadLetter ==>
        && i == |log| - 1 && 0 < i
        && log[i - 1].hop != ToDeadLetter && log[i - 1].result.Failed?
        && log[i].request.message == initial
        && log[i].request.headers == log[i - 1].request.headers
  {
  }

  /** The reply target receives the inbound message and headers when there is no destination, and otherwise
      the destination's response message with the headers passed on from it. */
  lemma ReplyForwardsCarriedMessage(d: Collaborators, initial: Message, headers: Headers,
                                    destination: Option<Url>, reply: Option<Url>, deadLetter: Option<Url>)
    ensures var log := Dispatch(d, initial, headers, destination, reply, deadLetter).log;
      forall i :: 0 <= i < |log| && log[i].hop == ToReply ==>
        if destination.None? then
          i == 0 && log[i].request.message == initial && log[i].request.headers == headers
        else
          i == 1 && log[0].result == Delivered(Some(log[i].request.message), log[i].request.headers)
  {
  }

  /** A call fails exactly when its last exchange failed; in particular a call with no exchange succeeds. */
  lemma ErrorIffLastExchangeFailed(d: Collaborators, initial: Message, headers: Headers,
                                   destination: Option<Url>, reply: Option<Url>, deadLetter: Option<Url>)
    ensures var o := Dispatch(d, initial, headers, destination, reply, deadLetter);
      o.err.Some? <==> |o.log| > 0 && o.log[|o.log| - 1].result.Failed?
  {
  }

  /** The error names the target and cause of the failed exchange, and of the failed dead-letter fallback. */
  lemma ErrorNamesFailedTargets(d: Collaborators, initial: Message, headers: Headers,
                                destination: Option<Url>, reply: Option<Url>, deadLetter: Option<Url>)
    ensures var o := Dispatch(d, initial, headers, destination, reply, deadLetter);
      o.err.Some? ==>
        var last := o.log[|o.log| - 1];
        match last.hop
        case ToDestination => o.err.value == DestinationFailed(last.request.target, last.result.error)
        case ToReply => o.err.value == ReplyFailed(last.request.target, last.result.error)
        case ToDeadLetter =>
          var prev := o.log[|o.log| - 2];
          o.err.value ==
            if prev.hop == ToDestination
            then DestinationAndDeadLetterFailed(prev.request.target, prev.result.error, last.request.target, last.result.error)
            else ReplyAndDeadLetterFailed(prev.request.target, prev.result.error, last.request.target, last.result.error)
  {
  }

  /** A dead-letter fallback keeps the tracked messages equal to the inbound message followed by the
      messages handed over so far. */
  lemma AfterFailureFinishesOwned(d: Collaborators, failed: Call, deadLetter: Option<Url>, initial: Message,
                                  headers: Headers, toFinish: seq<Message>, log: seq<Call>)
    requires failed.result.Failed?
    requires toFinish == [initial] + Responses(log)
    ensures var o := AfterFailure(d, failed, deadLetter, initial, headers, toFinish, log);
      o.toFinish == [initial] + Responses(o.log)
  {
    if deadLetter.Some? {
      ResponsesSnoc(log, Attempt(d, log, ToDeadLetter, Request(deadLetter.value, initial, headers)));
    }
  }

  /** So does the reply hop, once the carried message is tracked. */
  lemma ReplyHopFinishesOwned(d: Collaborators, initial: Message, carried: Message, carriedHeaders: Headers,
                              reply: Option<Url>, deadLetter: Option<Url>, toFinish: seq<Message>, log: seq<Call>)
    requires toFinish + [carried] == [initial] + Responses(log)
    ensures var o := ReplyHop(d, initial, carried, carriedHeaders, reply, deadLetter, toFinish, log);
      o.toFinish == [initial] + Responses(o.log)
  {
    if reply.Some? {
      var c := Attempt(d, log, ToReply, Request(reply.value, carried, carriedHeaders));
      ResponsesSnoc(log, c);
      if c.result.Failed? {
        AfterFailureFinishesOwned(d, c, deadLetter, initial, carriedHeaders, toFinish + [carried], log + [c]);
      }
    }
  }

  /** Whichever way the call ends, the messages finished are the inbound message followed by every response
      message an exchange handed over to the dispatcher, each once and in the order received. */
  lemma FinishesOwnedMessages(d: Collaborators, initial: Message, headers: Headers,
                              destination: Option<Url>, reply: Option<Url>, deadLetter: Option<Url>)
    ensures var o := Dispatch(d, initial, headers, destination, reply, deadLetter);
      o.toFinish == [initial] + Responses(o.log)
  {
    var dst, rep, dl := SanitizeUrl(destination), SanitizeUrl(reply), SanitizeUrl(deadLetter);
    if dst.None? {
      ReplyHopFinishesOwned(d, initial, initial, headers, rep, dl, [], []);
    } else {
      var c := Attempt(d, [], ToDestination, Request(dst.value, initial, headers));
      ResponsesSnoc([], c);
      assert [] + [c] == [c];
      if c.result.Failed? {
        AfterFailureFinishesOwned(d, c, dl, initial, headers, [initial], [c]);
      } else if c.result.response.Some? {
        ReplyHopFinishesOwned(d, initial, c.result.response.value, c.result.headers, rep, dl, [initial], [c]);
      }
    }
  }

  /** With neither destination nor reply, nothing is sent, the call succeeds and only the inbound message
      is finished. */
  lemma NoDestinationNoReply(d: Collaborators, initial: Message, headers: Headers, deadLetter: Option<Url>)
    ensures Dispatch(d, initial, headers, None, None, deadLetter) == Outcome(None, [initial], [])
  {
  }

  /** A failed destination exchange without a dead-letter sink is the call's error; nothing else is sent. */
  lemma DestinationFailsWithoutDeadLetter(d: Collaborators, initial: Message, headers: Headers,
                                          destination: Option<Url>, reply: Option<Url>)
    requires destination.Some?
    requires ExecuteRequest(d, 0, Request(SanitizeUrl(destination).value, initial, headers)).Failed?
    ensures var url := SanitizeUrl(destination).value;
      var r := ExecuteRequest(d, 0, Request(url, initial, headers));
      Dispatch(d, initial, headers, destination, reply, None) ==
        Outcome(Some(DestinationFailed(url, r.error)), [initial], [Call(ToDestination, Request(url, initial, headers), r)])
  {
  }

  /** A failed destination exchange with a dead-letter sink sends the inbound message and headers there once;
      the call succeeds exactly when that exchange does, and the reply target is not contacted. */
  lemma DestinationFailsToDeadLetter(d: Collaborators, initial: Message, headers: Headers,
                                     destination: Option<Url>, reply: Option<Url>, deadLetter: Option<Url>)
    requires destination.Some? && deadLetter.Some?
    requires ExecuteRequest(d, 0, Request(SanitizeUrl(destination).value, initial, headers)).Failed?
    ensures var url, dl := SanitizeUrl(destination).value, SanitizeUrl(deadLetter).value;
      var r0 := ExecuteRequest(d, 0, Request(url, initial, headers));
      var r1 := ExecuteRequest(d, 1, Request(dl, initial, headers));
      var o := Dispatch(d, initial, headers, destination, reply, deadLetter);
      && o.log == [Call(ToDestination, Request(url, initial, headers), r0), Call(ToDeadLetter, Request(dl, initial, headers), r1)]
      && (o.err.None? <==> r1.Delivered?)
      && (r1.Failed? ==> o.err == Some(DestinationAndDeadLetterFailed(url, r0.error, dl, r1.error)))
      && o.toFinish == [initial] + ResponseOf(r1)
  {
  }

  /** A destination that answers without an event ends the call successfully; nothing else is sent. */
  lemma DestinationReturnsNoEvent(d: Collaborators, initial: Message, headers: Headers,
                                  destination: Option<Url>, reply: Option<Url>, deadLetter: Option<Url>)
    requires destination.Some?
    requires var r := ExecuteRequest(d, 0, Request(SanitizeUrl(destination).value, initial, headers));
      r.Delivered? && r.response.None?
    ensures var url := SanitizeUrl(destination).value;
      var r := ExecuteRequest(d, 0, Request(url, initial, headers));
      Dispatch(d, initial, headers, destination, reply, deadLetter) ==
        Outcome(None, [initial], [Call(ToDestination, Request(url, initial, headers), r)])
  {
  }

  /** A destination response with no reply target is absorbed: the call succeeds, nothing else is sent, and
      the response is finished after the inbound message. */
  lemma ResponseWithoutReply(d: Collaborators, initial: Message, headers: Headers,
                             destination: Option<Url>, deadLetter: Option<Url>)
    requires destination.Some?
    requires var r := ExecuteRequest(d, 0, Request(SanitizeUrl(destination).value, initial, headers));
      r.Delivered? && r.response.Some?
    ensures var url := SanitizeUrl(destination).value;
      var r := ExecuteRequest(d, 0, Request(url, initial, headers));
      Dispatch(d, initial, headers, destination, None, deadLetter) ==
        Outcome(None, [initial, r.response.value], [Call(ToDestination, Request(url, initial, headers), r)])
  {
  }

  /** A failed reply exchange with a dead-letter sink sends the inbound message there, not the destination's
      response, with the headers passed on from the destination; the call succeeds exactly when that
      exchange does. */
  lemma ReplyFailsToDeadLetter(d: Collaborators, initial: Message, headers: Headers,
                               destination: Option<Url>, reply: Option<Url>, deadLetter: Option<Url>)
    requires destination.Some? && reply.Some? && deadLetter.Some?
    requires var r0 := ExecuteRequest(d, 0, Request(SanitizeUrl(destination).value, initial, headers));
      && r0.Delivered? && r0.response.Some?
      && ExecuteRequest(d, 1, Request(SanitizeUrl(reply).value, r0.response.value, r0.headers)).Failed?
    ensures var url, rep, dl := SanitizeUrl(destination).value, SanitizeUrl(reply).value, SanitizeUrl(deadLetter).value;
      var r0 := ExecuteRequest(d, 0, Request(url, initial, headers));
      var m, h := r0.response.value, r0.headers;
      var r1 := ExecuteRequest(d, 1, Request(rep, m, h));
      var r2 := ExecuteRequest(d, 2, Request(dl, initial, h));
      var o := Dispatch(d, initial, headers, destination, reply, deadLetter);
      && o.log == [Call(ToDestination, Request(url, initial, headers), r0),
                   Call(ToReply, Request(rep, m, h), r1),
                   Call(ToDeadLetter, Request(dl, initial, h), r2)]
      && (o.err.None? <==> r2.Delivered?)
      && (r2.Failed? ==> o.err == Some(ReplyAndDeadLetterFailed(rep, r1.error, dl, r2.error)))
      && o.toFinish == [initial, m] + ResponseOf(r2)
  {
  }

  /** Three exchanges in one call do occur: destination answers with an event, the reply exchange fails and
      the dead-letter sink is contacted. */
  lemma ThreeExchangesReachable(initial: Message, headers: Headers, destination: Url, reply: Url, deadLetter: Url)
    ensures exists d: Collaborators ::
      |Dispatch(d, initial, headers, Some(destination), Some(reply), Some(deadLetter)).log| == 3
  {
    var d := Collaborators(
      (k: nat, req: Request) => if k == 1 then Aborted(SendRequest) else Response(200, EncodingBinary, initial, map[]),
      (h: Headers) => h);
    assert |Dispatch(d, initial, headers, Some(destination), Some(reply), Some(deadLetter)).log| == 3;
  }
}
