# Message dispatcher model

A Dafny model of the delivery engine of Knative Eventing's channel package
(`vendor/knative.dev/eventing/pkg/channel/message_dispatcher.go`). Given one inbound event
message and up to three optional targets (destination, reply, dead-letter sink), the engine
makes one delivery attempt per hop and forwards a destination's event response to the reply
target. When a hop fails it falls back once to the dead-letter sink, if one is set. Every
message `DispatchMessage` tracks is finished exactly once, whichever way the call ends.

- `optional.dfy` (`Optional`): `Option`, the model of a nil pointer or nil interface.
- `urls.dfy` (`Urls`): the fields of Go's `net/url.URL`, the supported schemes `http` and
  `https`, and `SanitizeUrl` (`sanitizeURL`).
- `exchange.dfy` (`Exchange`): messages as opaque identities, header sets, requests, the
  transport's answer (`Wire`) and `ExecuteRequest` (`executeRequest`). The answer is either a
  failure at one of three steps (building the request, writing it, sending it) or a response
  with a status, a body encoding, a body message and headers.
- `dispatcher.dfy` (`Dispatcher`): the dispatch policy as a function, `Dispatch`, and the
  imperative `DispatchMessage`. `DispatchMessage` keeps the local `messagesToFinish` list. Its
  body is a labelled block: each `return` of the Go code becomes a `break` out of that block.
  The deferred finishing loop follows the block, so it runs on every exit path.
  `DispatchMessage` is proved to produce exactly what `Dispatch` specifies.
- `dispatcher_properties.dfy` (`DispatcherProperties`): lemmas about `Dispatch`. They cover
  which targets are contacted, in what order and with which message and headers, when the
  call fails, and which messages are finished.

The network is a parameter. A `Collaborators` value carries `sender`, which gives the
transport's answer (`Wire`) to the k-th request of the current call. It stands for the
`HttpMessageSender` field and the servers behind it. Every exchange is recorded in the call
log `log`, with its role (`Hop`), its request and its classified result. Errors are tagged
variants that name the failed targets and causes, not formatted strings.

A call makes at most three exchanges (`AtMostOneExchangePerRole`). It makes three when the
destination answers with an event, the reply exchange fails and a dead-letter sink is set
(lines 99, 134 and 138); `ThreeExchangesReachable` exhibits such a call.

## Model

| member | source | states |
|---|---|---|
| `Urls.SanitizeUrl` | vendor/knative.dev/eventing/pkg/channel/message_dispatcher.go:190-203 | An absent URL stays absent. A URL with scheme `http` or `https` is returned unchanged. Any other URL becomes scheme `http`, the same host, path `/`, with every other field empty. Every result has a supported scheme and the input's host. |
| `Urls.SanitizeIdempotent` | vendor/knative.dev/eventing/pkg/channel/message_dispatcher.go:194-202 | Sanitizing an already sanitized URL changes nothing. |
| `Urls.SanitizeHostOnlyHint` | vendor/knative.dev/eventing/pkg/channel/message_dispatcher.go:198-202 | A host-only routing hint `h` is dispatched as `http://h/`. |
| `Exchange.ExecuteRequest` | vendor/knative.dev/eventing/pkg/channel/message_dispatcher.go:158-188 | An exchange fails exactly when the request was not built, written or sent, or the status is not 2xx. The error names the failed step or the status. On success, a response message is present exactly when the body's encoding is known. It is then the response body, and its headers are the pass-through selection of the response headers. Otherwise the headers are empty. |
| `Dispatcher.DispatchMessage` | vendor/knative.dev/eventing/pkg/channel/message_dispatcher.go:74-156 | The error result, the messages finished by the deferred loop (all tracked messages, in tracking order) and the exchanges made are exactly those the dispatch policy `Dispatch` specifies. |
| `DispatcherProperties.ExchangesFollowTransport` | vendor/knative.dev/eventing/pkg/channel/message_dispatcher.go:84-138 | Every exchange goes to the sanitized target of its role. Its result is the transport's answer to that request at that position in the call. |
| `DispatcherProperties.ShapeOfExchanges` | vendor/knative.dev/eventing/pkg/channel/message_dispatcher.go:94-149 | The roles contacted are one of `[]`, `[D]`, `[D, DL]`, `[D, R]`, `[D, R, DL]`, `[R]`, `[R, DL]`. |
| `DispatcherProperties.AtMostOneExchangePerRole` | vendor/knative.dev/eventing/pkg/channel/message_dispatcher.go:94-149 | A call makes at most three exchanges. It contacts each role at most once, and never a role whose target is absent. |
| `DispatcherProperties.DeadLetterCarriesInboundMessage` | vendor/knative.dev/eventing/pkg/channel/message_dispatcher.go:100-138 | The dead-letter sink is contacted only as the last exchange, right after a failed destination or reply exchange. It receives the inbound message, never a response, with the headers of the request that failed. |
| `DispatcherProperties.ReplyForwardsCarriedMessage` | vendor/knative.dev/eventing/pkg/channel/message_dispatcher.go:94-134 | Without a destination, the reply target is the first exchange and receives the inbound message and headers. Otherwise it is the second exchange and receives the destination's response message with the headers passed on from it. |
| `DispatcherProperties.ErrorIffLastExchangeFailed` | vendor/knative.dev/eventing/pkg/channel/message_dispatcher.go:99-155 | A call returns an error exactly when its last exchange failed. A call with no exchange succeeds, and a successful dead-letter fallback absorbs the failure. |
| `DispatcherProperties.ErrorNamesFailedTargets` | vendor/knative.dev/eventing/pkg/channel/message_dispatcher.go:104-149 | The error names the failed destination or reply target and its cause. After a failed fallback it also names the dead-letter sink and its cause. |
| `DispatcherProperties.AfterFailureFinishesOwned` | vendor/knative.dev/eventing/pkg/channel/message_dispatcher.go:100-147 | After a dead-letter fallback, the tracked messages are still the inbound message followed by every message handed over so far. |
| `DispatcherProperties.ReplyHopFinishesOwned` | vendor/knative.dev/eventing/pkg/channel/message_dispatcher.go:127-153 | The reply hop keeps that invariant: it tracks the carried message, then the reply's or dead-letter sink's response. |
| `DispatcherProperties.FinishesOwnedMessages` | vendor/knative.dev/eventing/pkg/channel/message_dispatcher.go:77-153 | On every exit path the finished messages are the inbound message followed by every response message an exchange handed over, each once, in the order received. |
| `DispatcherProperties.NoDestinationNoReply` | vendor/knative.dev/eventing/pkg/channel/message_dispatcher.go:116-132 | With neither destination nor reply, no exchange is made, the call succeeds, and only the inbound message is finished. |
| `DispatcherProperties.DestinationFailsWithoutDeadLetter` | vendor/knative.dev/eventing/pkg/channel/message_dispatcher.go:99-114 | A failed destination with no dead-letter sink gives a `DestinationFailed` error naming the destination and cause. It makes the destination exchange only. |
| `DispatcherProperties.DestinationFailsToDeadLetter` | vendor/knative.dev/eventing/pkg/channel/message_dispatcher.go:100-112 | A failed destination with a dead-letter sink sends the inbound message and headers there exactly once, and never contacts the reply target. The call succeeds exactly when that exchange succeeds, and the sink's response, if any, is finished. |
| `DispatcherProperties.DestinationReturnsNoEvent` | vendor/knative.dev/eventing/pkg/channel/message_dispatcher.go:99-125 | A destination answering without an event ends the call with success. It contacts neither the reply target nor the dead-letter sink. |
| `DispatcherProperties.ResponseWithoutReply` | vendor/knative.dev/eventing/pkg/channel/message_dispatcher.go:122-132 | A destination response with no reply target is absorbed: the call succeeds, nothing else is sent, and the response is finished after the inbound message. |
| `DispatcherProperties.ReplyFailsToDeadLetter` | vendor/knative.dev/eventing/pkg/channel/message_dispatcher.go:134-149 | A failed reply with a dead-letter sink sends the inbound message, not the destination's response, to the sink with the destination's pass-through headers. The call succeeds exactly when that exchange succeeds, and otherwise names the reply and the dead-letter sink. |
| `DispatcherProperties.ThreeExchangesReachable` | vendor/knative.dev/eventing/pkg/channel/message_dispatcher.go:94-149 | Some transport behaviour makes a call perform three exchanges, so the bound of three is reached. |

## Left out

- The network exchange itself (`NewCloudEventRequestWithTarget`, `WriteHttpRequestWithAdditionalHeaders`, `Send`) is foreign library and network code. It is the `sender` parameter, which reports only the step that failed or the response obtained.
- CloudEvents decoding (`NewMessageFromHttpResponse`, `ReadEncoding`) is reduced to the response's `Encoding`. Only `EncodingUnknown` is distinguished from the others.
- The source of `isFailure` is not shown. The model's `IsFailure` is the 2xx test that the error text at line 180 names.
- `utils.PassThroughHeaders` is not part of this model. It is the `passThrough` parameter.
- The response message built at line 182 is dropped without `Finish` when its encoding is unknown (lines 183-185). `ExecuteRequest` reduces that case to `Delivered(None, map[])`, so the model does not represent that message, and the finish-list properties speak only of the messages `DispatchMessage` tracks.
- Header names are not case-folded: a header set is a plain map from name to values.
- The URL is passed to the transport as a value. Its string form (`url.String()`) and Go's pointer identity are not modelled.
- The inbound message is a non-nil `Message`, since callers always pass one. The nil check at line 123 therefore applies only to a destination's response.
- `Finish` is recorded as the message's place in the finished list. Its own result is discarded by the source and is not modelled.
- Context cancellation, tracing spans and debug logging (lines 130, 159-162, 184) are not modelled. Cancellation appears only as a failed send.
- Constructing a dispatcher (`NewMessageDispatcher`, `NewMessageDispatcherFromConfig`, lines 56-72) is not modelled. The supported schemes it sets are the constant `SupportedSchemes`.
- Error strings (lines 105, 114, 140, 149) are modelled as the variants of `DispatchError`.
