# UnityAsyncHttp core, modelled in Dafny

This project models three pieces of the UnityAsyncHttp library and proves properties of them.

- **The main-thread dispatcher** (`Scripts/Utils/Dispatcher.cs`), module `Utilities`. It is a process-wide, double-buffered mailbox:
  - background code appends closures to `_backlog` and raises `_queued`;
  - once per frame, `Update` swaps `_backlog` with the empty `_actions`, runs the swapped-out batch in order, and clears it.

  The static state is the class `Utilities.Dispatcher`. A closure is an `Action`: either a log print, or a host event together with the closures it enqueues when it runs. Ghost traces `enqueued` and `executed` record every closure ever enqueued and every closure ever run.
- **The auto-reconnecting websocket client** (`Scripts/Websockets/WebsocketClient.cs`), module `Websockets`. The model covers:
  - the outbound frame queue (`QueueMessage`, and the locked batch take in `Send`);
  - the send and receive loop iterations;
  - the query string that `Connect` builds;
  - `Open`;
  - the try/catch/finally of `Connect`;
  - `DisposeAsync`.

  The transport calls (`ConnectAsync`, `SendAsync`, `ReceiveAsync`, `CloseAsync`) are not modelled. What each call does is an input: a `Handshake`, a `SendOutcome`, a `ReceiveOutcome` or a `CloseOutcome`. A session is a schedule of send-loop and receive-loop iterations, in the order they ran. `_ws` is `None` or the number of the `ClientWebSocket` it holds. The list `disposed` shows that every socket is released at most once, for the model's schedule, in which the iterations run one at a time.
- **The upload body with progress reporting** (`Scripts/REST/ProgressableStreamContent.cs`), module `Content`. The model covers:
  - the constructors, with their argument checks and the header copy;
  - `TryComputeLength`;
  - the copy loop of `SerializeToStreamAsync`, with its threshold-based progress callback;
  - `Dispose`.

  The wrapped stream is given as the chunks that successive `Read` calls return. The request stream is the sequence of `Write` calls. Fractions are reals. A size of 0 gives `+Infinity`, as float division does.

Every `lock` body is one atomic method. Each send-loop and receive-loop iteration, catch block included, is one atomic step too, although the source does not make it one (see "## Left out"). Module `Shared` holds the byte type, `Option`, `Result` and the counting helpers.

Behaviour of the code that a reader might not expect:

- `Update` has no try/catch, so a throwing closure would abort the batch. It is not caught and logged.
- Each `Open` call starts another `Connect` and adds another reconnect handler. A second `Open` is not refused.
- `DisposeAsync` does not disable reconnecting.
- A batch taken by the send loop is lost when a send throws. Its unsent frames do not stay queued.
- The query string is not percent-encoded. `QueryStringAmbiguous` shows two parameter lists that give the same string.

## Model

| member | source | states |
|---|---|---|
| Utilities.Dispatcher.constructor | Scripts/Utils/Dispatcher.cs:73-76 | The static state starts with an empty backlog, the flag down, no instance, and empty traces. The dispatcher invariant holds. |
| Utilities.Dispatcher.RunOnMainThread | Scripts/Utils/Dispatcher.cs:20-27 | The closure is appended after the earlier entries of the backlog and of the enqueue trace. The flag is raised. The invariant (nothing lost: executed followed by the backlog equals everything enqueued; the flag is up exactly when work waits) is kept. |
| Utilities.Dispatcher.Log | Scripts/Utils/Dispatcher.cs:29-32 | Enqueues exactly one closure, which prints the message at Info level. Nothing else changes. |
| Utilities.Dispatcher.LogWarning | Scripts/Utils/Dispatcher.cs:34-37 | Enqueues exactly one closure, which prints the message at Warning level. Nothing else changes. |
| Utilities.Dispatcher.LogError | Scripts/Utils/Dispatcher.cs:39-42 | Enqueues exactly one closure, which prints the message at Error level. Nothing else changes. |
| Utilities.Dispatcher.Initialize | Scripts/Utils/Dispatcher.cs:44-52 | With an instance already present nothing changes, so a second call is a no-op. Otherwise a fresh persistent object named "Dispatcher" becomes the instance. |
| Utilities.Dispatcher.Execute | Scripts/Utils/Dispatcher.cs:66-67 | Running one closure records it in the executed trace. The closures it enqueues go to the end of the backlog, in order. |
| Utilities.Dispatcher.RunActions | Scripts/Utils/Dispatcher.cs:66-67 | The `foreach` runs the swapped-out batch in order, each closure once. The backlog and the enqueue trace grow by exactly what the batch spawned. |
| Utilities.Dispatcher.Update | Scripts/Utils/Dispatcher.cs:54-71 | With the flag down nothing runs and nothing changes. Otherwise exactly the old backlog runs, in enqueue order, each closure once. `_actions` ends empty. The new backlog holds only what that batch enqueued, so none of it runs in the same Update. The invariant is kept. |
| Utilities.Dispatcher.UpdateTwice | Scripts/Utils/Dispatcher.cs:54-71 | Of two consecutive Updates, the second runs exactly what the first batch enqueued. Work spawned during a drain is deferred to the next drain. |
| Utilities.Spawned | Scripts/Utils/Dispatcher.cs:66-67 | The closures a batch enqueues while it runs: what each closure passes to RunOnMainThread, in batch order. No contract of its own; SpawnedAppend and PrintsSpawnNothing state its properties, and Update and RunActions are proved against it. |
| Utilities.SpawnedAppend | Scripts/Utils/Dispatcher.cs:66-67 | Running two batches one after the other enqueues what the first enqueues followed by what the second enqueues. |
| Utilities.PrintsSpawnNothing | Scripts/Utils/Dispatcher.cs:29-42 | A batch of log closures enqueues nothing. |
| Websockets.QueryStringAppend | Scripts/Websockets/WebsocketClient.cs:60-64 | One more parameter appends its `key=value&` field to the query string. |
| Websockets.QueryStringShape | Scripts/Websockets/WebsocketClient.cs:60-64 | The query string is empty exactly when there are no parameters. Otherwise it ends with '&'. |
| Websockets.QueryStringLength | Scripts/Websockets/WebsocketClient.cs:60-64 | The length of the query string is the sum of \|key\| + \|value\| + 2 over all parameters. |
| Websockets.ParseQueryString | Scripts/Websockets/WebsocketClient.cs:63 | For parameters with no '&' anywhere and no '=' in a key, parsing the query string gives the parameters back, in order. |
| Websockets.QueryStringAmbiguous | Scripts/Websockets/WebsocketClient.cs:63 | Without escaping, the parameter lists [a = "b&c=d"] and [a = "b", c = "d"] give the same query string. |
| Websockets.Field | Scripts/Websockets/WebsocketClient.cs:63 | One `key=value&` field: \|key\| + \|value\| + 2 characters, '=' right after the key, and '&' last. |
| Websockets.QueryString | Scripts/Websockets/WebsocketClient.cs:60-64 | The fields of all parameters, in enumeration order. It is empty exactly when there are no parameters. |
| Websockets.BuildQueryString | Scripts/Websockets/WebsocketClient.cs:60-64 | The `+=` loop builds exactly the query string of the parameters, in enumeration order. |
| Websockets.ConnectDispatchOrder | Scripts/Websockets/WebsocketClient.cs:77-98 | What Connect dispatches always ends with OnDisconnect followed by the completion log. It starts with OnConnect when the handshake succeeds, and with the logged exception when it fails. |
| Websockets.TryDispatchCounts | Scripts/Websockets/WebsocketClient.cs:77-88 | The try and catch blocks never raise OnDisconnect. They raise OnConnect once when the handshake succeeds and never otherwise. |
| Websockets.TeardownCounts | Scripts/Websockets/WebsocketClient.cs:89-98 | The finally block raises OnDisconnect once and never raises OnConnect. |
| Websockets.ConnectEventCounts | Scripts/Websockets/WebsocketClient.cs:77-98 | Whatever the loops dispatch, one Connect raises OnDisconnect exactly once. It raises OnConnect once if the handshake succeeded and never otherwise. |
| Websockets.TryDispatches | Scripts/Websockets/WebsocketClient.cs:77-88 | What the try and catch blocks dispatch. A failed handshake dispatches only its Error log. A successful one dispatches OnConnect first, then the loops' closures, then at most one fault log, and nothing else. |
| Websockets.ConnectDispatches | Scripts/Websockets/WebsocketClient.cs:77-98 | TryDispatches followed by Teardown. No contract of its own; ConnectDispatchOrder and ConnectEventCounts state its order and counts. |
| Websockets.Teardown | Scripts/Websockets/WebsocketClient.cs:96-97 | The finally block's dispatches, OnDisconnect and then the completion log. No contract of its own; TeardownCounts states its counts. |
| Websockets.Released | Scripts/Websockets/WebsocketClient.cs:91-92 | The handles `_ws.Dispose()` releases: exactly the live one when `_ws` is not null, and none otherwise. |
| Websockets.ExceptionText | Scripts/Websockets/WebsocketClient.cs:87 | `string.Format("Exception: {0}", message)`, the text of every error log of the client (lines 87, 146, 177 and 193). No contract of its own; TryDispatches, Abandon and DisposeAsync state where it is logged. |
| Websockets.ValidPort | Scripts/Websockets/WebsocketClient.cs:69 | The ports the UriBuilder `Port` setter accepts, -1 to 65535. No contract of its own; Connect states that any other port throws before the try block. |
| Websockets.ReceiveBuffer | Scripts/Websockets/WebsocketClient.cs:158-166 | The message decoded after a receive is the whole 1024-byte buffer. It starts with the received bytes (at most 1024) and has zeros after them. It is never trimmed to the received count. |
| Websockets.CopyBytes | Scripts/Websockets/WebsocketClient.cs:115-120 | `Array.Copy` into a new array gives a fresh array with the same bytes. |
| Websockets.WebsocketClient.constructor | Scripts/Websockets/WebsocketClient.cs:16-32 | The defaults are localhost, 3000, "ws" and no parameters. There is no socket, the queue is empty and there are no handlers. |
| Websockets.WebsocketClient.Open | Scripts/Websockets/WebsocketClient.cs:34-52 | Overwrites host, port and path. Keeps the previous parameters when given none. Starts one more Connect task. Adds one more reconnect handler on every call. |
| Websockets.WebsocketClient.QueueMessage | Scripts/Websockets/WebsocketClient.cs:210-218 | Appends exactly one frame holding the payload bytes after the earlier frames, sets `_hasWork`, and signals the send loop. The queue invariant is kept. |
| Websockets.WebsocketClient.TakeBatch | Scripts/Websockets/WebsocketClient.cs:107-125 | Without work it takes nothing and changes nothing. Otherwise it returns the pending frames byte for byte, in order, each in a fresh and distinct array. The queue is then empty, `_hasWork` is false, and the taken trace grows by that batch. |
| Websockets.WebsocketClient.SendBatch | Scripts/Websockets/WebsocketClient.cs:127-147 | Frames reach the transport in batch order until a send throws (with a null `_ws`, at once). The failure is reported exactly when some frame was not delivered. |
| Websockets.WebsocketClient.SendIteration | Scripts/Websockets/WebsocketClient.cs:103-150 | Without work nothing happens. Otherwise the batch is taken, and its delivered prefix is appended to the wire. If the batch was only partly delivered, the socket is released, `_ws` becomes null, the error is logged, and the rest of the batch is lost. |
| Websockets.WebsocketClient.ReleaseSocket | Scripts/Websockets/WebsocketClient.cs:91-94 | `_ws` ends null. The live socket, if any, is released exactly once. |
| Websockets.WebsocketClient.Abandon | Scripts/Websockets/WebsocketClient.cs:139-147 | The catch block of a loop: the live socket is released once, `_ws` becomes null, and exactly one Error log with the exception's message is enqueued. |
| Websockets.WebsocketClient.Delivered | Scripts/Websockets/WebsocketClient.cs:129-146 | The number of frames of a batch that reach the transport. None with a null `_ws`, since the first `_ws.SendAsync` throws. All of them when every send completes, or when the send that throws would come after the batch. Otherwise the frames before the one whose send throws. Never more than the batch. |
| Websockets.WebsocketClient.SendError | Scripts/Websockets/WebsocketClient.cs:129-146 | The message logged when a batch ends early: the NullReferenceException message with a null `_ws`, otherwise the message of the send that threw. No contract of its own; SendIteration states its use. |
| Websockets.WebsocketClient.ReceiveIteration | Scripts/Websockets/WebsocketClient.cs:156-179 | A receive on a live socket dispatches OnMessage with the whole receive buffer. A throwing receive, or a null `_ws`, releases the socket, nulls `_ws`, and logs the error. |
| Websockets.WebsocketClient.RunStep | Scripts/Websockets/WebsocketClient.cs:101-181 | One loop iteration dispatches only messages and error logs. It either keeps `_ws` or releases it once and nulls it. A send iteration changes the queue, the wire and the signal exactly as SendIteration does. A receive iteration leaves all three alone. Either way the wire and the taken frames only grow, and the frames sent are some of the frames taken, in order. |
| Websockets.WebsocketClient.RunLoops | Scripts/Websockets/WebsocketClient.cs:83 | For any schedule that runs the two loops' iterations one at a time, both loops together dispatch only messages and error logs, and release the socket at most once. Nothing joins the queue, and nothing leaves it except by being taken. The wire and the taken frames only grow. The frames sent during the loops are some of the frames taken during them, in the order taken. The send signal is never raised. |
| Websockets.WebsocketClient.TryConnect | Scripts/Websockets/WebsocketClient.cs:77-88 | The try and catch blocks dispatch exactly TryDispatches. A refused handshake logs its error and changes neither the queue, the taken frames, the wire nor the signal. An accepted one changes them only as RunLoops states. |
| Websockets.WebsocketClient.RunConnected | Scripts/Websockets/WebsocketClient.cs:79-84 | After the handshake: OnConnect, then what the loops dispatch, then the logged fault, if any. The queue and the wire change only as RunLoops states. |
| Websockets.WebsocketClient.Finally | Scripts/Websockets/WebsocketClient.cs:89-98 | Releases the live socket once, nulls `_ws`, then dispatches OnDisconnect and the completion log. |
| Websockets.WebsocketClient.Session | Scripts/Websockets/WebsocketClient.cs:77-98 | One attempt on the given URI, with the loops' iterations run one at a time. `_ws` ends null and the socket is released exactly once. The dispatched closures are exactly ConnectDispatches. The queue and the wire change only as RunLoops states, and not at all when the handshake is refused. |
| Websockets.WebsocketClient.NewSocket | Scripts/Websockets/WebsocketClient.cs:56 | A socket never seen before becomes `_ws`. |
| Websockets.WebsocketClient.Target | Scripts/Websockets/WebsocketClient.cs:66-73 | The UriBuilder initializer: the scheme, the configured host, port and path, and the query string of the configured parameters. No contract of its own; Connect states that this is the URI attempted. |
| Websockets.WebsocketClient.Connect | Scripts/Websockets/WebsocketClient.cs:54-99 | A port outside -1..65535 throws before the try block: nothing is dispatched and `_ws` keeps the new socket. Otherwise the target URI is built from the configuration, `_ws` always ends null, the new socket is released exactly once (the loops' iterations run one at a time), and the dispatched closures are ConnectDispatches. In every case the queue and the wire change only as RunLoops states: the frames sent are some of the frames taken, in queue order. |
| Websockets.WebsocketClient.DisposeAsync | Scripts/Websockets/WebsocketClient.cs:183-203 | A failed close (a null `_ws` among its causes) is logged. The socket is then released if there is one, and `_ws` becomes null. |
| Websockets.WebsocketClient.QueueTwoThenSend | Scripts/Websockets/WebsocketClient.cs:107-137 | Two messages queued, then one send iteration in which every send completes: the transport receives exactly those two frames, in queue order. |
| Content.HttpContent.constructor | Scripts/REST/ProgressableStreamContent.cs:19 | The wrapped content holds the given headers and Content-Length and is not disposed. |
| Content.ProgressableStreamContent.constructor | Scripts/REST/ProgressableStreamContent.cs:39-46 | Stores content, buffer size and callback unchanged. The header loop copies every header of the inner content, in order. |
| Content.ProgressableStreamContent.Create | Scripts/REST/ProgressableStreamContent.cs:28-47 | A null content fails with ArgumentNull("content"). Otherwise a buffer size ≤ 0 fails with ArgumentOutOfRange("bufferSize"). Otherwise a fresh content holds the arguments unchanged, with all the headers copied. |
| Content.ProgressableStreamContent.CreateWithDefaultBuffer | Scripts/REST/ProgressableStreamContent.cs:24-25 | The two-argument constructor behaves the same, with a buffer of 5 × 4096 = 20480 bytes. |
| Content.ProgressableStreamContent.TryComputeLength | Scripts/REST/ProgressableStreamContent.cs:85-89 | Always succeeds. The length is the inner Content-Length, or 0 when there is none. |
| Content.ProgressableStreamContent.Read | Scripts/REST/ProgressableStreamContent.cs:65 | The chunk read lands at the start of the buffer, and those bytes are what gets written. |
| Content.ProgressableStreamContent.SerializeToStream | Scripts/REST/ProgressableStreamContent.cs:49-83 | Writes exactly the chunks read, whole and in order, up to the first empty read, each 1..bufferSize bytes. `uploaded` equals the number of bytes written. When a callback is present it receives exactly Reported(Fractions(...)); otherwise it receives nothing. |
| Content.ProgressableStreamContent.Dispose | Scripts/REST/ProgressableStreamContent.cs:91-98 | With `disposing`, the wrapped content is disposed. Otherwise nothing changes. |
| Content.Accepted | Scripts/REST/ProgressableStreamContent.cs:63-66 | The loop accepts a prefix of the reads, made of non-empty chunks, ending at the first empty read or at the end of the stream. |
| Content.FractionOf | Scripts/REST/ProgressableStreamContent.cs:69 | `(float)uploaded / (float)size` for a positive `uploaded`: +Infinity exactly when the size is 0, otherwise the positive real q with q × size = uploaded. |
| Content.Exceeds | Scripts/REST/ProgressableStreamContent.cs:70 | `pctUploaded - lastPct > .1f` with float semantics. Nothing exceeds +Infinity, because Infinity − Infinity is NaN and a finite value − Infinity is −Infinity. +Infinity exceeds every finite value. Two finite values pass exactly when the new one is more than 0.1 above the old. |
| Content.Fractions | Scripts/REST/ProgressableStreamContent.cs:68-69 | One fraction per accepted chunk. FractionsAt and FractionsIncrease state their values. |
| Content.Reported | Scripts/REST/ProgressableStreamContent.cs:62-74 | The values passed to the callback as the fractions are computed in order. There are never more of them than fractions. ReportsIncrease and ReportsAreFractions state their properties. |
| Content.LastReported | Scripts/REST/ProgressableStreamContent.cs:62-73 | `lastPct` after the fractions are computed. No contract of its own; LastReportedIsLastReport states that it is the last report, or 0 before the first. |
| Content.FractionsSnoc | Scripts/REST/ProgressableStreamContent.cs:68-69 | One more chunk adds one fraction: everything uploaded, that chunk included, over the size. |
| Content.FractionsAt | Scripts/REST/ProgressableStreamContent.cs:68-69 | The fraction after chunk j is the number of bytes in the first j + 1 chunks over the size. |
| Content.FractionsIncrease | Scripts/REST/ProgressableStreamContent.cs:68-69 | With a known length the fractions are finite, positive and strictly increasing, and bounded by the total upload over the size. |
| Content.ReportedSnoc | Scripts/REST/ProgressableStreamContent.cs:70-74 | A new fraction is reported exactly when it exceeds `lastPct` by more than 0.1, and it then becomes `lastPct`. |
| Content.CopyStep | Scripts/REST/ProgressableStreamContent.cs:65-77 | One pass of the loop adds the chunk's bytes to `uploaded`. It reports the new fraction exactly when it exceeds the last report by more than 0.1, and then replaces `lastPct`. |
| Content.LastReportedIsLastReport | Scripts/REST/ProgressableStreamContent.cs:62-73 | `lastPct` is the last value reported, or 0 while nothing has been reported. |
| Content.ReportsIncrease | Scripts/REST/ProgressableStreamContent.cs:62-74 | Each report exceeds the previous one by more than 0.1, and the first exceeds 0 by more than 0.1. |
| Content.ReportsAreFractions | Scripts/REST/ProgressableStreamContent.cs:69-74 | Every report is the fraction `uploaded/size` of some iteration, and the reports come in iteration order. |
| Content.UnknownLengthReportsOnce | Scripts/REST/ProgressableStreamContent.cs:69-74 | With no Content-Length (size 0) every fraction is +Infinity. Exactly one report is made, at the first chunk. |
| Content.ExampleFractions | Scripts/REST/ProgressableStreamContent.cs:68-69 | Chunks of 50, 45 and 5 bytes of a 100-byte upload give the fractions 0.5, 0.95 and 1.0. |
| Content.CompletionMayGoUnreported | Scripts/REST/ProgressableStreamContent.cs:70-74 | That upload reports 0.5 and 0.95 but never 1.0: completion is not guaranteed to be reported. |

## Left out

- Utilities.Dispatcher.Valid: the invariant holds for the model, in which every RunOnMainThread and every swap is one atomic step. The source does not ensure this. `lock (_backlog)` (Dispatcher.cs:22, :58) locks whichever list the field holds at that moment, and Update reassigns `_backlog` inside the lock (:60-62). A RunOnMainThread that locked the old list before the swap then adds to the new list (:24), while a later caller may hold the new list's lock. Two `Add`s can then run on one list at once, and an entry can be lost.
- Websockets.WebsocketClient.RunLoops: each loop iteration, its catch block included, is one atomic step in the model. In the source the catch blocks (WebsocketClient.cs:141-144, :172-175) run outside any lock. A failing send disposes the socket, which makes the pending `ReceiveAsync` (:162) throw. The receive's catch can then call `_ws.Dispose()` a second time before line 144 nulls the field. It then logs the receive's own message rather than the null-reference text the model gives for a null `_ws`. "Released at most once" in the RunLoops, Session and Connect rows holds only for the model's schedule. The schedule also has no `QueueMessage` steps. So "nothing joins the queue" in the RunLoops row and the rows above it holds for a session during which nothing is queued. In the source, `QueueMessage` may run on another thread while the loops run, and its frames are taken by a later send iteration.
- Content.ProgressableStreamContent.SerializeToStream: the copy loop's exceptions are not modelled. `ReadAsStreamAsync` (:60), `Read` (:65), the callback (:72) and `Write` (:77) may throw, and nothing catches them. Because `uploaded += length` (:68) and the report (:72) run before the write (:77), a callback or `Write` that throws leaves a chunk counted, and possibly reported, that was never written. The model's reads and writes always succeed, so its `uploaded` always equals the bytes written.
- Real concurrency is not modelled: `lock`, `volatile`, `Task.Run`, `Task.WhenAll`, `AutoResetEvent.WaitOne(1000)` and the thread pool. Each lock body is one atomic step, and no claim is made about interleavings. The busy spin caused by the `continue` inside the lock of `Send` is a timing matter and is not modelled.
- `Dispatcher.RunAsync` and `WebsocketClient.Dispose` (`IDisposable.Dispose`) are left out: each only hands work to the thread pool (`DisposeAsync` itself is modelled).
- Utilities.Dispatcher.Update: a closure that throws aborts the batch and skips the `Clear` in the source. The model's closures never throw.
- Host handlers (`OnConnect`, `OnMessage`, `OnDisconnect`) are not modelled, so the closures raising them enqueue nothing.
- `Debug.Log` output and `DontDestroyOnLoad` are abstract: a `Print` action, and a `persistent` flag.
- UTF-8 encoding and JSON serialisation are left out. `QueueMessage` takes the encoded bytes, and `QueueMessage(IWebsocketMessage)` is not modelled.
- The UTF-8 decoding of the receive buffer is left out. OnMessage carries the whole 1024-byte buffer.
- Websockets.WebsocketClient.Open: the model copies the parameters as a value. The source stores the caller's `Dictionary` by reference, so a caller who changes it after Open changes the query string of every later Connect, reconnects included. The model also takes each parameter value already as text. The source formats each `object` value with its culture-dependent `ToString`, so 0.5 becomes "0,5" under a German culture.
- Websockets.WebsocketClient.QueueMessage: the pending frames are held as their contents, not as shared arrays. Nothing writes a queued array after it is built, so no aliasing is lost.
- `ClientWebSocket` options (sub-protocol, keep-alive) and the transport's internals are not modelled. The state check `ws.State == Open` is replaced by the given schedule of loop iterations.
- Websockets.WebsocketClient.Connect: UriBuilder validation other than the port range is not modelled. At WebsocketClient.cs:75, `builder.Uri` throws `UriFormatException` before the try block for a host it cannot parse, such as one containing a space. The effect is that of a bad port: `_ws` keeps the new socket, nothing is dispatched, and no reconnect follows. The model instead attempts such a target, so its "`_ws` always ends null" assumes a host that parses.
- The 5-second reconnect delay and the 5-second close timeout are not modelled: the model has no clock. The reconnect handler is recorded, not run.
- Exception texts: stack traces in `Exception.ToString()` are dropped, and the messages of transport exceptions are inputs.
- Content.ProgressableStreamContent.SerializeToStream: fractions are exact reals, so float rounding and `0.1f` being slightly more than 0.1 are not modelled.
- Content.ProgressableStreamContent.SerializeToStream: does not model the 32-bit overflow of `uploaded` for uploads over 2^31 - 1 bytes.
- Content.ProgressableStreamContent.SerializeToStream: a stream `Read` never returns more than the buffer holds, which the precondition states. `Flush` calls and the disposal of the input stream are not modelled.
- Content.ProgressableStreamContent.Dispose: `base.Dispose` of `HttpContent` is not modelled.
- `Scripts/REST/RESTClient.cs` is not part of this model. It is HTTP, file and JSON plumbing.
