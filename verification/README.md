# Asynchronous RPC in sup-protocol: a verified model

`sup-protocol` carries calls of an application's `Protocol` over a synchronous transport. A client may
ask for a call to be run asynchronously: the server starts a thread and answers with a request id; the
client polls with that id until the reply is ready, and then fetches it. This project models that
protocol as one system and proves what it guarantees over whole runs: any number of clients, any
interleaving with finishing threads, cleanups and the passing of time, and for the client any behaviour
of the transport. It also models the second concurrent algorithm of the library, waiting for a process
variable to take a value.

| file | what it models |
|---|---|
| `Values.dfy` | dynamically typed values, result codes, the library functions the RPC layer calls |
| `Packets.dfy` | building and parsing of packets |
| `RequestTable.dfy` | the server's request table and the life of one request, as a state machine |
| `TableInvariant.dfy`, `TableGuarantees.dfy`, `KeepAlive.dfy` | what every step keeps, and what every run guarantees |
| `Cleanup.dfy`, `Retention.dfy` | the erase-while-iterating cleanup, and how long garbage is kept |
| `ServerProtocol.dfy` | which packet asks for what, and which reply packet answers it |
| `AsyncInvoke.dfy`, `AsyncInvokeServer.dfy`, `RpcServer.dfy` | the server's classes, proved against the state machine |
| `Polling.dfy`, `Client.dfy` | the client's classes and its poll loop |
| `EndToEnd.dfy` | client and server together |
| `VariableWait.dfy` | waiting for a process variable, with and without callbacks |

How it fits together. An operation of the table is one critical section and so one event of the state
machine. Whether a thread has finished, and what time it is, are observations that come with the event;
they are arbitrary, so an event may find that the thread finished between two looks inside one critical
section. Each server object keeps its history of events as a ghost, and every method extends it: the
table is always the one that the state machine reaches through the history, and each reply is the answer
of the state machine. So every theorem about runs holds of the objects. On the client side the transport
keeps a log of exchanges, and the methods of the client are proved to produce transcripts of a stated
form, for every transport. `EndToEnd.dfy` reads each exchange of a transcript as an event of a run.

Conditions under which the theorems hold:

- Fewer than 2^64 requests, and clock readings below 2^64 ns (`WithinLimits`). Unsigned subtraction and
  the increment of the id counter are modelled with their wrap-around; what happens at the limit of ids
  is `EndToEnd.LastIdIsRefused`.
- The clock of the server does not run backwards. The clock of the client moves between two readings, and
  at least as far as a sleep asks; `Polling.StalledClockNeverTimesOut` shows that this is needed.
- Base64 decoding of an encoded value gives the value back (`Library.RoundTrips`), and
  `TryAssignIfEmptyOrConvert` assigns to an empty output and leaves the output alone when it fails.
- The outcome of a thread is a function of its request number and input, which covers protocols with
  internal state or random behaviour. Only the comparison with a synchronous call assumes that the
  protocol treats the same input alike.

Things the code does that its comments do not say:

- The comment in `Poll` says its error means that someone invalidated the request. It is given to
  expired requests as well (`TableGuarantees.ExpiredPollIsRefused`; exactly when,
  `TableGuarantees.PollExactly`). That error has no payload, so the client reports a decoding error
  (`EndToEnd.PollFailsExactly`).
- `GetReply` does not look at the age of a request before it takes the reply, so an expired request that
  has not been cleaned up can still be fetched although a poll refuses it. But if the thread finishes
  only after `GetReply` has found it running, and the request has expired, the finished reply is erased
  and the client is told that the operation is invalid (`TableGuarantees.LateFetchLosesTheReply`, for any
  expiration time; exactly when, `TableGuarantees.GetReplyExactly`).
- A stale "disconnected" callback that takes the lock after the last "connected" one makes the wait fail
  although the variable has the expected value (`VariableWait.StaleCallbackLosesTheWakeUp`; exactly when a
  wait fails, `VariableWait.TimeOutExactly` and `VariableWait.FailsExactly`).

## Model

| member | source | states |
|---|---|---|
| EndToEnd.AsyncAgreesWithSync | src/lib/sup/protocol/base/protocol_rpc_client.cpp:109-155 | for every non-empty input, both encodings and every outcome of the protocol (any result and output, or an exception): an asynchronous Invoke whose packets are served in any run, whose request stays alive and that does not give up, returns the result and leaves the output of a synchronous Invoke; and which these are: the code for an exception, the protocol's own result, and on success its output put into the caller's |
| EndToEnd.AsyncAgreesWhenPolledOften | src/lib/sup/protocol/base/protocol_rpc_client.cpp:125-155 | the same under a condition the client can meet by itself: its polls are at most the expiration time apart |
| EndToEnd.AgreementIsNotVacuous | src/lib/sup/protocol/base/protocol_rpc_client.cpp:125-155 | for every input, encoding and protocol there is a run that meets those conditions |
| EndToEnd.FetchIsReadAsSync | src/lib/sup/protocol/base/async_invocation.cpp:156-193 | a fetched reply is read exactly as the synchronous reply for the same outcome, although the client does not check its format |
| EndToEnd.SyncDeliversOutcome | src/lib/sup/protocol/base/protocol_rpc_client.cpp:181-207 | for every outcome of the protocol, the result and output that a synchronous Invoke ends with |
| EndToEnd.FetchExactly | src/lib/sup/protocol/base/async_invocation.cpp:156-193 | in every state of the table, the result and output that a client that fetches ends with |
| EndToEnd.AtOnceAgreesWithSync | src/lib/sup/protocol/base/async_invocation.cpp:100-112 | an asynchronous Invoke that the server answers like a synchronous one sends one packet and gives what a synchronous Invoke would |
| EndToEnd.PollFailsExactly | src/lib/sup/protocol/base/async_invocation.cpp:143-153 | in which states of the server a polling client sees a failure, which is always a decoding error, and what it sees otherwise |
| EndToEnd.LastIdIsRefused | src/lib/sup/protocol/base/async_invoke_server.cpp:151-154 | the client refuses the id of a started request if and only if the counter has wrapped around to 0 |
| EndToEnd.HandledPacketIsServed | src/lib/sup/protocol/base/protocol_rpc_server.cpp:66-83 | what the server's objects guarantee of one call makes its packet an event of the run with that reply |
| KeepAlive.NoLostReply | src/lib/sup/protocol/base/async_invoke_server.cpp:102-133 | a request that is kept alive stays in the table in every interleaving, every poll reports truthfully whether its thread has finished, and the first fetch after that delivers the outcome for the submitted payload |
| KeepAlive.PollingKeepsAlive | src/lib/sup/protocol/base/async_invoke.cpp:107-128 | a client that polls at least once every expiration time keeps its request alive |
| KeepAlive.AliveStep | src/lib/sup/protocol/base/async_invoke.cpp:107-149 | nothing but a delivery ends a request that is kept alive, with the thread finishing at any point of a step |
| TableGuarantees.AtMostOnce | src/lib/sup/protocol/base/async_invoke_server.cpp:92-133 | at most one fetch ever delivers the reply of an id, and it is the outcome for the payload submitted under that id |
| TableGuarantees.IdsAreFresh | src/lib/sup/protocol/base/async_invoke_server.cpp:151-154 | every id is handed out once, in increasing order, and never 0 |
| TableGuarantees.GoneForever | src/lib/sup/protocol/base/async_invoke_server.cpp:102-149 | once a request has left the table, every later Poll, GetReply and Invalidate answers "unknown id", forever |
| TableGuarantees.IdsAreConserved | src/lib/sup/protocol/base/async_invoke_server.cpp:76-154 | at every moment the ids 1..n of the n submissions so far are split exactly into live, delivered and dropped ones |
| TableGuarantees.EraseNeverWaits | src/lib/sup/protocol/base/async_invoke_server.cpp:76-149 | no entry between operations has lost its reply; every erased entry's thread has finished, so erasing never blocks; every dropped request was invalidated or had expired |
| TableGuarantees.InvalidationIsFinal | src/lib/sup/protocol/base/async_invoke_server.cpp:135-149 | after an acknowledged Invalidate no poll ever answers ready and no fetch delivers, whether or not the thread had finished, and the next cleanup after it has finished reclaims the entry |
| TableGuarantees.PollIsSound | src/lib/sup/protocol/base/async_invoke_server.cpp:102-133 | after a poll answered ready, with no fetch, invalidation or erasure in between, the next fetch delivers |
| TableGuarantees.GetReplyExactly | src/lib/sup/protocol/base/async_invoke_server.cpp:119-133 | exactly when a fetch delivers, drops or leaves a request, in terms of the thread and the clock at its two looks |
| TableGuarantees.LateFetchLosesTheReply | src/lib/sup/protocol/base/async_invoke_server.cpp:127-131 | for every expiration time, a concrete run in which a fetch drops a finished reply |
| TableGuarantees.PollExactly | src/lib/sup/protocol/base/async_invoke_server.cpp:102-117 | exactly when a poll is refused, what it answers otherwise, and which requests it refreshes: an expired one that is still running too, an invalidated one never |
| TableGuarantees.InvalidateExactly | src/lib/sup/protocol/base/async_invoke_server.cpp:135-149 | an invalidation marks a live request, drops it at once exactly if its thread has finished, and changes nothing else |
| TableGuarantees.AwaitExactly | src/lib/sup/protocol/base/async_invoke.cpp:107-116 | what a wait for a live request answers, and that it counts as an access at its start |
| TableGuarantees.ExpiredPollIsRefused | src/lib/sup/protocol/base/async_invoke_server.cpp:110-114 | for every expiration time, a concrete run in which a poll is refused though nobody has invalidated the request, and the next fetch delivers |
| TableInvariant.StepKeeps | src/lib/sup/protocol/base/async_invoke_server.cpp:38-149 | every operation, every cleanup visit and the environment keep the table invariant |
| TableInvariant.RemovalMeans | src/lib/sup/protocol/base/async_invoke.cpp:118-128 | within the limits the wrapping age computation judges by the real age |
| Values.Sub64Exact | src/lib/sup/protocol/base/async_invoke.cpp:161-165 | the 64-bit subtraction does not wrap for a clock that does not run backwards |
| Cleanup.CleanupIsExact | src/lib/sup/protocol/base/async_invoke_server.cpp:76-90 | the cleanup removes everything that was removable when it started, removes only what was removable when visited, and leaves all else unchanged, whatever happens meanwhile |
| Retention.RetentionIsBounded | src/lib/sup/protocol/base/protocol_rpc_server.cpp:47-52 | over any sequence of calls of a server, from its start: at the end of each call, every remaining request that had finished when the last cleanup (or any earlier one) started is wanted and has been idle at most the expiration time plus the cleanup interval |
| Retention.CallRetains | src/lib/sup/protocol/base/expiration_timeout_handler.cpp:36-47 | one call, which cleans up exactly when it is time, keeps the link between the time of the last cleanup and the last access of every entry that had finished by then |
| Retention.CleanupRetains | src/lib/sup/protocol/base/async_invoke_server.cpp:76-90 | a cleanup re-establishes that link for its own start |
| AsyncInvocations.AsyncInvoke.WaitForReady | src/lib/sup/protocol/base/async_invoke.cpp:107-116 | does what the state machine says, for some observation of clock and thread; a wait that ends without the thread having finished has lasted for the whole time asked |
| AsyncInvocations.AsyncInvoke.IsReadyForRemoval | src/lib/sup/protocol/base/async_invoke.cpp:118-128 | likewise |
| AsyncInvocations.AsyncInvoke.GetReply | src/lib/sup/protocol/base/async_invoke.cpp:130-149 | likewise; the reply is taken at most once |
| AsyncInvocations.AsyncInvoke.Invalidate | src/lib/sup/protocol/base/async_invoke.cpp:151-154 | sets the flag and nothing else |
| AsyncServer.AsyncInvokeServer.NewRequest | src/lib/sup/protocol/base/async_invoke_server.cpp:92-100 | one event in the history; the new table is that of the state machine; the reply packet reports success and holds the next id |
| AsyncServer.AsyncInvokeServer.Poll | src/lib/sup/protocol/base/async_invoke_server.cpp:102-117 | one event, and it never erases; the result code and the ready flag in the reply packet, for every state of the request |
| AsyncServer.AsyncInvokeServer.GetReply | src/lib/sup/protocol/base/async_invoke_server.cpp:119-133 | one event; the result code and the payload in the reply packet, for every state of the request and every outcome of the protocol |
| AsyncServer.AsyncInvokeServer.Invalidate | src/lib/sup/protocol/base/async_invoke_server.cpp:135-149 | one event; the reply packet reports success exactly if the id is in the table, and an unknown id otherwise |
| AsyncServer.AsyncInvokeServer.WaitForReady | src/lib/sup/protocol/base/async_invoke_server.cpp:65-74 | likewise, for any time to wait, under the mutex |
| AsyncServer.AsyncInvokeServer.HandleInvoke | src/lib/sup/protocol/base/async_invoke_server.cpp:38-63 | any payload and any 32-bit command is one event, answered with the packet for that command and the code for what is wrong with it: no id, no such id, or no such command |
| AsyncServer.AsyncInvokeServer.CleanUpExpiredRequests | src/lib/sup/protocol/base/async_invoke_server.cpp:76-90 | the loop ends and is a sweep: it visits each key of the table once, in order |
| RpcServer.ExpirationTimeoutHandler.IsCleanUpNeeded | src/lib/sup/protocol/base/expiration_timeout_handler.cpp:36-47 | true exactly when more than the cleanup interval has passed, and then the time is noted |
| RpcServer.ProtocolRPCServer.Handle | src/lib/sup/protocol/base/protocol_rpc_server.cpp:47-117 | one call adds to the history one reading of the clock, a cleanup exactly when it is time, and at most one operation, and nothing else; any packet gets a well-formed reply from the one part of the system it is meant for; a refused packet gets the code for what is wrong with its members and reaches nothing; the reply to a direct call carries the protocol's result and output, or the code for an exception; an asynchronous reply carries its command; and the retention bound holds for the calls since the start |
| RpcServer.ServedOnTheWire | src/lib/sup/protocol/base/protocol_rpc_server.cpp:66-117 | which handler is called with which payload, and the result and payload of its reply packet |
| ServerProtocol.AsyncReplyEchoes | src/lib/sup/protocol/base/async_invoke_server.cpp:38-63 | for every one of the 2^32 commands and every state the reply packet is well formed, carries the command, and reads back as the payload of the table's answer: an id exactly for a submission, a ready flag only for a poll, an output only for a fetch, and else none |
| ServerProtocol.ResultCodeExactly | src/lib/sup/protocol/base/async_invoke_server.cpp:38-149 | the result code of every reply, for every command, payload and state of the table |
| ServerProtocol.AnswerOnTheWire | src/lib/sup/protocol/base/async_invoke_server.cpp:38-149 | the result and payload that each answer of the table puts into its packet |
| ServerProtocol.RequestsReachTheirHandler | src/lib/sup/protocol/base/protocol_rpc.cpp:138-194 | every request packet a client builds reaches the handler meant for it, with its payload, command and id, in both encodings |
| ServerProtocol.RefusedExactly | src/lib/sup/protocol/base/protocol_rpc_server.cpp:53-78 | exactly which packets are refused and with which code, and to which handler, with which payload and command, every other packet goes, by what its members hold |
| Packets.StoredPayloadReadsBack | src/lib/sup/protocol/base/protocol_rpc.cpp:358-370 | a stored payload and its encoding are read back from the packet, and no other member changes |
| Packets.ReplyReadsBack | src/lib/sup/protocol/base/protocol_rpc.cpp:197-233 | result, payload, encoding and command of a reply are read back, with and without a payload |
| Packets.HandleRepliesReadBack | src/lib/sup/protocol/base/protocol_rpc.cpp:235-250 | the id and the ready flag are read back |
| Packets.WireFormat | src/lib/sup/protocol/base/protocol_rpc.cpp:138-250 | the packets, member by member |
| Packets.ReplyPayloadExactly | src/lib/sup/protocol/base/protocol_rpc_client.cpp:160-179 | what is read as the payload of any packet, by its encoding and payload members |
| Client.TranscriptShape | src/lib/sup/protocol/base/protocol_rpc_client.cpp:125-155 | against any transport: the initial request, polls, at most one fetch right after a poll answered ready; every follow-up carries the id received, nothing follows an exception, and the output changes on success only |
| Client.LastResponseDecides | src/lib/sup/protocol/base/protocol_rpc_client.cpp:125-155 | the result and output of an asynchronous Invoke, by its last response |
| Client.ReplyIsReadExactly | src/lib/sup/protocol/base/protocol_rpc_client.cpp:181-207 | the result and output that any response leads to, by the members of the packet |
| Client.StartIsReadExactly | src/lib/sup/protocol/base/async_invocation.cpp:100-124 | how any response to the initial request is read |
| Client.PollIsReadExactly | src/lib/sup/protocol/base/async_invocation.cpp:136-153 | how any response to a poll is read |
| Client.ProtocolRPCClient.Invoke | src/lib/sup/protocol/base/protocol_rpc_client.cpp:52-64 | sends nothing for an empty input, else produces a transcript of the stated form with a bounded number of polls; giving up means that more than the timeout has passed |
| Client.ProtocolRPCClient.HandleAsyncInvoke | src/lib/sup/protocol/base/protocol_rpc_client.cpp:125-155 | ends for every transport; gives up after a last "not ready" only when more than the timeout has passed |
| Client.ProtocolRPCClient.HandleSyncInvoke | src/lib/sup/protocol/base/protocol_rpc_client.cpp:109-123 | one exchange; result and output for every response: an exception, an ill-formed reply, an error, and a payload that replaces, is converted into, or leaves alone the output |
| Client.AsyncInvocation.Start | src/lib/sup/protocol/base/async_invocation.cpp:88-125 | one exchange; which replies, by their members, are accepted as the result itself, which as an id to ask for, and the code for all others; afterwards the invocation has a well-formed reply or a nonzero id, and after the first success not both; a failure changes nothing; without an input it throws and sends nothing |
| Client.AsyncInvocation.PollOnce | src/lib/sup/protocol/base/async_invocation.cpp:127-154 | one poll for the id, or no contact with the transport in synchronous mode |
| Client.AsyncInvocation.GetReply | src/lib/sup/protocol/base/async_invocation.cpp:156-193 | one fetch, or no contact in synchronous mode; a payload replaces, is converted into, or leaves alone the output, which is unchanged unless it succeeds |
| Client.AsyncInvocation.Invalidate | src/lib/sup/protocol/base/async_invocation.cpp:195-210 | tells the server once, or nobody if there is nothing to invalidate |
| Polling.WaitsAreBounded | src/lib/sup/protocol/base/polling_timeout_handler.cpp:50-62 | whatever the server answers, no wait for a timeout of 0 and else at most ceil((timeout - 1 ns) / interval) + 1 waits; so never more than ceil(timeout / interval) + 1 |
| Polling.BoundIsTight | src/lib/sup/protocol/base/polling_timeout_handler.cpp:50-62 | for every timeout and interval that number of waits is reached, by readings that all come after the start |
| Polling.StalledClockNeverTimesOut | src/lib/sup/protocol/base/polling_timeout_handler.cpp:54-57 | without a clock that moves there is no bound, as the comparison is strict |
| Polling.PollingTimeoutHandler.Wait | src/lib/sup/protocol/base/polling_timeout_handler.cpp:50-62 | never subtracts below zero, sleeps once, for the interval or up to the deadline, and answers false only after the deadline |
| VariableWait.NoLostWakeUp | src/lib/sup/protocol/factory/process_variable.cpp:61-97 | once the variable has settled and its last callback has taken the lock, a waiter that has not given up cannot give up any more |
| VariableWait.SettledWaitSucceeds | src/lib/sup/protocol/factory/process_variable.cpp:80-97 | and after one check of the flag and one read it has succeeded, even at the deadline |
| VariableWait.StaleCallbackLosesTheWakeUp | src/lib/sup/protocol/factory/process_variable.cpp:64-70 | a run that fails because the last callback to take the lock is not the last one made |
| VariableWait.FlagIsWakeUp | src/lib/sup/protocol/factory/process_variable.cpp:61-89 | the flag is set exactly when there is a wake-up, the first read or a "connected" callback, that no later "disconnected" callback has cancelled and no later read has used up |
| VariableWait.TimeOutExactly | src/lib/sup/protocol/factory/process_variable.cpp:80-90 | at the deadline the wait fails if and only if no wake-up is pending |
| VariableWait.FailsExactly | src/lib/sup/protocol/factory/process_variable.cpp:80-97 | a run has failed if and only if the waiter has found the deadline passed with no wake-up pending |
| VariableWait.ReadsAreBounded | src/lib/sup/protocol/factory/process_variable.cpp:80-96 | at most one read per connected callback, plus one |
| VariableWait.SuccessIsARead | src/lib/sup/protocol/factory/process_variable.cpp:91-95 | success means a read found the expected value |
| VariableWait.WaitWithCallbacks | src/lib/sup/protocol/factory/process_variable.cpp:80-97 | the loop is a run of the state machine; it fails only after the deadline and with no wake-up pending, and it ends when the callbacks do |
| VariableWait.BusyWaitForValue | src/lib/sup/protocol/factory/process_variable_utils.cpp:42-58 | for a value that is not empty, true exactly if the last read found it, and no read before that did; false only after the timeout; at most timeout / 50 ms + 1 reads after the first, 50 ms apart; an empty value is found by a first read that fails |
| VariableWait.CurrentWasRead | src/lib/sup/protocol/factory/process_variable_utils.cpp:33-40 | the last known value is that of the latest read that succeeded, or empty because none has |

## Left out

- The value, serialisation, base64 and conversion libraries (sup-dto, sup-codec): they are parameters, with the two hypotheses above.
- Real threads, futures, mutexes and condition variables: an operation under a mutex is one step, and finishing threads, ticks of the clock and callbacks are steps of the environment.
- RpcServer.ProtocolRPCServer.Handle: calls are serialised here; between the pacing, the cleanup and the operation of one call other calls may come in between, and the theorems about runs cover every such interleaving, but the retention bound does not.
- VariableWait.WaitWithCallbacks: the number of callbacks during one wait is finite; a steady stream of them can keep the original waiting past its deadline, so there is no upper bound on its time.
- AddRPCPayload and the builders add members to a packet in place; here they return the new packet, as packets are values.
- Member order, type names and dotted member paths of structures: no code modelled here looks at them.
- Seconds as floating-point numbers and their conversion to nanoseconds: expiration, cleanup interval, timeout and polling interval are given in nanoseconds.
- The Service call of the client, application protocol info, and the choice between the two ways of waiting: they would add only easy members.
- Destruction of the server, which does wait for running threads, and failure to create a thread.
- Logging decorators and stacks, factories, dependency injection, configuration structures, exception classes and result names.
