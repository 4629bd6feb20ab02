/**
 * The auto-reconnecting websocket client (Scripts/Websockets/WebsocketClient.cs).
 *
 * Each `lock (_msgLockObject)` body is one atomic method. The transport
 * (ConnectAsync, SendAsync, ReceiveAsync, CloseAsync) is not modelled: what
 * it does on one call is an input. A session is a schedule of iterations of
 * the send loop and the receive loop, interleaved in the order they ran.
 * Every host-visible effect goes through the dispatcher of module Utilities.
 */
module Websockets {
  import opened Shared
  import opened Utilities

  /** What a dispatched closure does for the host: invoke OnConnect, OnMessage or OnDisconnect. */
  datatype ClientEvent = Connected | Message(buffer: seq<byte>) | Disconnected

  type ClientAction = Action<ClientEvent>

  /** `() => OnConnect?.Invoke()` (the host handlers themselves are not modelled, so they spawn nothing). */
  const RaiseOnConnect: ClientAction := Callback(Connected, [])

  /** `() => OnDisconnect?.Invoke()`. */
  const RaiseOnDisconnect: ClientAction := Callback(Disconnected, [])

  /** `() => OnMessage?.Invoke(msg)`. */
  function RaiseOnMessage(buffer: seq<byte>): ClientAction
  {
    Callback(Message(buffer), [])
  }

  const ReceiveBufferSize: nat := 1024
  const DefaultHost: string := "localhost"
  const DefaultPort: int := 3000
  const DefaultPath: string := "ws"
  const Scheme: string := "ws"
  const ReconnectDelaySeconds: nat := 5
  const CompletionMessage: string := "Websocket Task Complete"
  /** The Message of the NullReferenceException thrown by a call through a null `_ws`. */
  const NullReferenceMessage: string := "Object reference not set to an instance of an object."
  /** The ToString() of that exception, stack trace left out. */
  const NullReferenceDescription: string := "System.NullReferenceException: " + NullReferenceMessage

  /** `string.Format("Exception: {0}", x)`. */
  function ExceptionText(x: string): string
  {
    "Exception: " + x
  }

  // ---------------------------------------------------------------------------
  // The query string built in Connect.
  // ---------------------------------------------------------------------------

  /** The query parameters, in the dictionary's enumeration order; values already turned into text. */
  type QueryParams = seq<(string, string)>

  /** `$"{item.Key}={item.Value}&"`. */
  function Field(p: (string, string)): (f: string)
    ensures |f| == |p.0| + |p.1| + 2
    ensures f[|p.0|] == '=' && f[|f| - 1] == '&'
  {
    p.0 + "=" + p.1 + "&"
  }

  /** The query string for `ps`: one field per parameter, in order. */
  function QueryString(ps: QueryParams): (q: string)
    ensures q == "" <==> ps == []
  {
    if ps == [] then "" else Field(ps[0]) + QueryString(ps[1..])
  }

  /** The sum of |key| + |value| + 2 over all parameters. */
  function FieldsLength(ps: QueryParams): nat
  {
    if ps == [] then 0 else FieldsLength(ps[..|ps| - 1]) + |ps[|ps| - 1].0| + |ps[|ps| - 1].1| + 2
  }

  lemma {:induction false} QueryStringAppend(ps: QueryParams, p: (string, string))
    ensures QueryString(ps + [p]) == QueryString(ps) + Field(p)
  {
    if ps == [] {
      assert ps + [p] == [p];
      assert [p][1..] == [];
    } else {
      assert (ps + [p])[0] == ps[0];
      assert (ps + [p])[1..] == ps[1..] + [p];
      QueryStringAppend(ps[1..], p);
    }
  }

  /** The query string is empty exactly when there are no parameters, and otherwise ends with '&'. */
  lemma {:induction false} QueryStringShape(ps: QueryParams)
    ensures QueryString(ps) == "" <==> ps == []
    ensures ps != [] ==> QueryString(ps)[|QueryString(ps)| - 1] == '&'
  {
    if ps != [] {
      QueryStringShape(ps[1..]);
      var f := Field(ps[0]);
      assert f[|f| - 1] == '&';
      var rest := QueryString(ps[1..]);
      assert QueryString(ps) == f + rest;
      if rest != "" {
        assert QueryString(ps)[|QueryString(ps)| - 1] == rest[|rest| - 1];
      }
    }
  }

  /** The length of the query string is the sum of |key| + |value| + 2 over all parameters. */
  lemma {:induction false} QueryStringLength(ps: QueryParams)
    ensures |QueryString(ps)| == FieldsLength(ps)
  {
    if ps != [] {
      var init := ps[..|ps| - 1];
      assert ps == init + [ps[|ps| - 1]];
      QueryStringAppend(init, ps[|ps| - 1]);
      QueryStringLength(init);
    }
  }

  /** The position of the first `c` in `s`, or |s| when there is none. */
  function IndexOf(s: string, c: char): (i: nat)
    ensures i <= |s|
    ensures i < |s| ==> s[i] == c
    ensures forall j :: 0 <= j < i ==> s[j] != c
  {
    if s == [] then 0 else if s[0] == c then 0 else 1 + IndexOf(s[1..], c)
  }

  lemma IndexOfBoundary(a: string, b: string, c: char)
    requires c !in a && b != [] && b[0] == c
    ensures IndexOf(a + b, c) == |a|
  {
    assert (a + b)[|a|] == c;
    assert forall j :: 0 <= j < |a| ==> (a + b)[j] == a[j];
  }

  /** Reads one field back: the key ends at the first '=', the value is what follows it. */
  function ParseField(field: string): (string, string)
  {
    var e := IndexOf(field, '=');
    (field[..e], if e < |field| then field[e + 1..] else "")
  }

  /** Reads a query string back into parameters: fields end at '&'. */
  function ParseQuery(q: string): QueryParams
    decreases |q|
  {
    if q == "" then []
    else
      var i := IndexOf(q, '&');
      [ParseField(q[..i])] + (if i < |q| then ParseQuery(q[i + 1..]) else [])
  }

  /** A parameter that the unescaped query string can carry: no '&' anywhere, no '=' in the key. */
  predicate Plain(p: (string, string))
  {
    '&' !in p.0 && '=' !in p.0 && '&' !in p.1
  }

  /** A key without '=' is read back whole, and so is the value after it. */
  lemma ParseFieldJoin(key: string, value: string)
    requires '=' !in key
    ensures ParseField(key + "=" + value) == (key, value)
  {
    var field := key + "=" + value;
    assert field == key + ("=" + value);
    IndexOfBoundary(key, "=" + value, '=');
    assert IndexOf(field, '=') == |key| < |field|;
    assert field[..|key|] == key;
    assert field[|key| + 1..] == value;
  }

  /** A field without '&' followed by '&' is read, then the rest is parsed. */
  lemma ParseQueryJoin(field: string, rest: string)
    requires '&' !in field
    ensures ParseQuery(field + "&" + rest) == [ParseField(field)] + ParseQuery(rest)
  {
    var q := field + "&" + rest;
    assert q == field + ("&" + rest);
    IndexOfBoundary(field, "&" + rest, '&');
    var i := IndexOf(q, '&');
    assert i == |field| < |q|;
    assert q[..i] == field;
    assert q[i + 1..] == rest;
    assert ParseQuery(q) == [ParseField(q[..i])] + ParseQuery(q[i + 1..]);
  }

  /** Parsing a plain field followed by more text reads that field, then parses the rest. */
  lemma ParseQueryField(key: string, value: string, rest: string)
    requires Plain((key, value))
    ensures ParseQuery(Field((key, value)) + rest) == [(key, value)] + ParseQuery(rest)
  {
    var field := key + "=" + value;
    assert Field((key, value)) + rest == field + "&" + rest;
    assert '&' !in field by {
      forall j | 0 <= j < |field| ensures field[j] != '&' {
        if j < |key| { assert field[j] == key[j]; }
        else if j > |key| { assert field[j] == value[j - |key| - 1]; }
      }
    }
    ParseQueryJoin(field, rest);
    ParseFieldJoin(key, value);
  }

  /** For plain parameters the query string loses nothing: parsing it gives the parameters back. */
  lemma {:induction false} ParseQueryString(ps: QueryParams)
    requires forall k :: 0 <= k < |ps| ==> Plain(ps[k])
    ensures ParseQuery(QueryString(ps)) == ps
  {
    if ps != [] {
      assert Plain(ps[0]);
      ParseQueryField(ps[0].0, ps[0].1, QueryString(ps[1..]));
      ParseQueryString(ps[1..]);
      assert ps == [ps[0]] + ps[1..];
    }
  }

  /** Without percent-encoding, different parameters can give the same query string. */
  lemma QueryStringAmbiguous()
    ensures QueryString([("a", "b&c=d")]) == QueryString([("a", "b"), ("c", "d")])
  {
    assert QueryString([("a", "b&c=d")]) == "a=b&c=d&";
    assert QueryString([("c", "d")]) == "c=d&";
    assert QueryString([("a", "b"), ("c", "d")]) == "a=b&" + QueryString([("c", "d")]);
  }

  /** The query-string loop of Connect: appends one field per parameter, in enumeration order. */
  method BuildQueryString(ps: QueryParams) returns (queryString: string)
    ensures queryString == QueryString(ps)
  {
    queryString := "";
    var i := 0;
    while i < |ps|
      invariant 0 <= i <= |ps|
      invariant queryString == QueryString(ps[..i])
    {
      QueryStringAppend(ps[..i], ps[i]);
      assert ps[..i + 1] == ps[..i] + [ps[i]];
      queryString := queryString + Field(ps[i]);
      i := i + 1;
    }
    assert ps[..i] == ps;
  }

  // ---------------------------------------------------------------------------
  // What Connect dispatches.
  // ---------------------------------------------------------------------------

  /**
   * What Connect hands to the UriBuilder: scheme, host, port, path and query
   * as given. This is not `builder.Uri`: no '/' is added before the path, no
   * '?' before the query, and nothing is escaped.
   */
  datatype Uri = Uri(scheme: string, host: string, port: int, path: string, query: string)

  /** UriBuilder.Port accepts -1 (the scheme's default) to 65535 and throws otherwise. */
  predicate ValidPort(port: int)
  {
    -1 <= port <= 65535
  }

  /** What one SendAsync loop does: every send completes, or the send of frame `index` throws. */
  datatype SendOutcome = AllSent | SendThrows(index: nat, message: string)

  /** What one ReceiveAsync does: it delivers bytes, or it throws. */
  datatype ReceiveOutcome = Received(data: seq<byte>) | ReceiveThrows(message: string)

  /** One iteration of the send loop or of the receive loop. */
  datatype LoopStep = SendStep(send: SendOutcome) | ReceiveStep(receive: ReceiveOutcome)

  /**
   * What happens inside Connect's try block: ConnectAsync throws, or it
   * completes and the two loops run the given iterations; Task.WhenAll then
   * completes or throws `fault`.
   */
  datatype Handshake = Refused(message: string) | Accepted(steps: seq<LoopStep>, fault: Option<string>)

  /** What the 5-second CloseAsync does. */
  datatype CloseOutcome = CloseCompleted | CloseThrows(description: string)

  /** A closure that the send and receive loops may dispatch: a message for the host, or an error log. */
  predicate LoopAction(a: ClientAction)
  {
    || (a.Callback? && a.event.Message? && a.spawns == [])
    || (a.Print? && a.level == Error)
  }

  /** The finally block: OnDisconnect, then the completion log. */
  function Teardown(): seq<ClientAction>
  {
    [RaiseOnDisconnect, Print(Info, CompletionMessage)]
  }

  /**
   * The closures the try and catch blocks of Connect dispatch, given the
   * closures its loops dispatched: the logged exception alone, or OnConnect
   * first, then the loops' closures and at most one logged fault.
   */
  function TryDispatches(h: Handshake, loops: seq<ClientAction>): (r: seq<ClientAction>)
    ensures |r| >= 1 && (r[0] == RaiseOnConnect <==> h.Accepted?)
    ensures h.Refused? ==> |r| == 1 && r[0].Print? && r[0].level == Error
    ensures h.Accepted? ==> |r| == |loops| + 1 + (if h.fault.Some? then 1 else 0)
  {
    match h
    case Refused(m) => [Print(Error, ExceptionText(m))]
    case Accepted(_, fault) =>
      [RaiseOnConnect] + loops + (if fault.Some? then [Print(Error, ExceptionText(fault.value))] else [])
  }

  /** The closures Connect dispatches, given the closures its loops dispatched. */
  function ConnectDispatches(h: Handshake, loops: seq<ClientAction>): seq<ClientAction>
  {
    TryDispatches(h, loops) + Teardown()
  }

  /**
   * Connect always ends with OnDisconnect followed by the completion log,
   * and begins with OnConnect exactly when the handshake was accepted
   * (otherwise with the logged exception).
   */
  lemma ConnectDispatchOrder(h: Handshake, loops: seq<ClientAction>)
    ensures var r := ConnectDispatches(h, loops);
      && |r| >= 3
      && r[|r| - 2] == RaiseOnDisconnect && r[|r| - 1] == Print(Info, CompletionMessage)
      && (h.Accepted? ==> r[0] == RaiseOnConnect)
      && (h.Refused? ==> r[0] == Print(Error, ExceptionText(h.message)))
  {
    var r := ConnectDispatches(h, loops);
    var t := Teardown();
    assert r == TryDispatches(h, loops) + t;
    assert r[|r| - 2] == t[0] && r[|r| - 1] == t[1];
    assert r[0] == TryDispatches(h, loops)[0];
  }

  /** Teardown raises OnDisconnect once and never OnConnect. */
  lemma TeardownCounts()
    ensures Count(Teardown(), RaiseOnDisconnect) == 1
    ensures Count(Teardown(), RaiseOnConnect) == 0
  {
    var t := Teardown();
    assert t[1..] == [Print(Info, CompletionMessage)];
    assert t[1..][1..] == [];
  }

  /**
   * Whatever the loops dispatch (messages and error logs only), one Connect
   * raises OnDisconnect exactly once, and OnConnect once if the handshake
   * was accepted and never otherwise.
   */
  lemma ConnectEventCounts(h: Handshake, loops: seq<ClientAction>)
    requires forall k :: 0 <= k < |loops| ==> LoopAction(loops[k])
    ensures Count(ConnectDispatches(h, loops), RaiseOnDisconnect) == 1
    ensures Count(ConnectDispatches(h, loops), RaiseOnConnect) == (if h.Accepted? then 1 else 0)
  {
    var d := TryDispatches(h, loops);
    TeardownCounts();
    TryDispatchCounts(h, loops);
    CountAppend(d, Teardown(), RaiseOnDisconnect);
    CountAppend(d, Teardown(), RaiseOnConnect);
  }

  /** The try and catch blocks never raise OnDisconnect, and raise OnConnect once exactly when accepted. */
  lemma TryDispatchCounts(h: Handshake, loops: seq<ClientAction>)
    requires forall k :: 0 <= k < |loops| ==> LoopAction(loops[k])
    ensures Count(TryDispatches(h, loops), RaiseOnDisconnect) == 0
    ensures Count(TryDispatches(h, loops), RaiseOnConnect) == (if h.Accepted? then 1 else 0)
  {
    assert RaiseOnConnect !in loops && RaiseOnDisconnect !in loops by {
      forall k | 0 <= k < |loops| ensures loops[k] != RaiseOnConnect && loops[k] != RaiseOnDisconnect {
        assert LoopAction(loops[k]);
      }
    }
    var d := TryDispatches(h, loops);
    match h {
      case Refused(m) =>
        assert d[1..] == [];
      case Accepted(_, fault) =>
        var log: seq<ClientAction> := if fault.Some? then [Print(Error, ExceptionText(fault.value))] else [];
        var head: seq<ClientAction> := [RaiseOnConnect];
        assert Count(head, RaiseOnConnect) == 1 by { assert head[1..] == []; }
        assert d == head + (loops + log);
        CountAppend(head, loops + log, RaiseOnConnect);
    }
  }

  /** The 1024-byte receive buffer after ReceiveAsync put `data` into it: it is decoded whole, never trimmed. */
  function ReceiveBuffer(data: seq<byte>): (buffer: seq<byte>)
    ensures |buffer| == ReceiveBufferSize
    ensures buffer[..Min(|data|, ReceiveBufferSize)] == data[..Min(|data|, ReceiveBufferSize)]
    ensures forall i :: |data| <= i < ReceiveBufferSize ==> buffer[i] == 0
  {
    seq(ReceiveBufferSize, i requires 0 <= i < ReceiveBufferSize => if i < |data| then data[i] else 0)
  }

  /** The contents of the frames, in order. */
  ghost function Snapshot(frames: seq<array<byte>>): (s: seq<seq<byte>>)
    reads frames
    ensures |s| == |frames|
    ensures forall i :: 0 <= i < |frames| ==> s[i] == frames[i][..]
  {
    if frames == [] then [] else Snapshot(frames[..|frames| - 1]) + [frames[|frames| - 1][..]]
  }

  ghost predicate NoDuplicates(s: seq<nat>)
  {
    forall i, j :: 0 <= i < j < |s| ==> s[i] != s[j]
  }

  /** The transport handle released when `_ws` is disposed, if it is not null. */
  function Released(ws: Option<nat>): (r: seq<nat>)
    ensures |r| == (if ws.Some? then 1 else 0)
    ensures ws.Some? ==> ws.value in r
  {
    if ws.Some? then [ws.value] else []
  }

  /** The handler Open adds to OnDisconnect: wait five seconds, then Connect again. */
  datatype DisconnectHandler = ReconnectAfterDelay(seconds: nat)

  /** `Array.Copy(src, dst, src.Length)` into a new array. */
  method CopyBytes(src: seq<byte>) returns (dst: array<byte>)
    ensures fresh(dst) && dst[..] == src
  {
    dst := new byte[|src|](_ => 0);
    var i := 0;
    while i < |src|
      invariant 0 <= i <= |src|
      invariant dst[..i] == src[..i]
    {
      dst[i] := src[i];
      i := i + 1;
    }
  }

  /**
   * A WebsocketClient. `ws` is `_ws`: null, or the ClientWebSocket numbered
   * by creation order; `created` counts the sockets created and `disposed`
   * lists the ones released. `wire` is what the transport accepted from
   * SendAsync and `attempts` the targets handed to ConnectAsync.
   * `queued` (every payload ever queued) and `taken` (every payload the
   * send loop took) are ghost traces.
   */
  class WebsocketClient {
    var host: string
    var port: int
    var path: string
    var queryParams: QueryParams
    var ws: Option<nat>
    var created: nat
    var disposed: seq<nat>
    /** The contents of the pending frames: no code writes a queued array after QueueMessage builds it. */
    var msgsToSend: seq<seq<byte>>
    var hasWork: bool
    /** The state of `_sendWaitEvent`, an AutoResetEvent. */
    var sendSignal: bool
    var onDisconnect: seq<DisconnectHandler>
    /** The Task.Run(Connect) calls made by Open. */
    var connectTasks: nat
    var wire: seq<seq<byte>>
    var attempts: seq<Uri>
    const dispatcher: Dispatcher<ClientEvent>
    ghost var queued: seq<seq<byte>>
    ghost var taken: seq<seq<byte>>

    /**
     * The flag says exactly whether frames wait, and every queued payload was
     * taken by the send loop or still waits, in queue order.
     */
    ghost predicate QueueValid()
      reads this`hasWork, this`msgsToSend, this`queued, this`taken
    {
      && (hasWork <==> msgsToSend != [])
      && queued == taken + msgsToSend
    }

    /** Every transport handle is released at most once, and the live one not yet. */
    ghost predicate HandlesValid()
      reads this`ws, this`created, this`disposed
    {
      && (forall h :: h in disposed ==> h < created)
      && (ws.Some? ==> ws.value < created && ws.value !in disposed)
      && NoDuplicates(disposed)
    }

    ghost predicate Valid()
      reads this`hasWork, this`msgsToSend, this`queued, this`taken
      reads this`ws, this`created, this`disposed
    {
      QueueValid() && HandlesValid()
    }

    /** The URI Connect builds from the current configuration. */
    function Target(): Uri
      reads this`host, this`port, this`path, this`queryParams
    {
      Uri(Scheme, host, port, path, QueryString(queryParams))
    }

    constructor (dispatcher: Dispatcher<ClientEvent>)
      ensures Valid()
      ensures this.dispatcher == dispatcher
      ensures host == DefaultHost && port == DefaultPort && path == DefaultPath && queryParams == []
      ensures ws == None && created == 0 && disposed == []
      ensures msgsToSend == [] && !hasWork && !sendSignal
      ensures onDisconnect == [] && connectTasks == 0 && wire == [] && attempts == []
    {
      host := DefaultHost;
      port := DefaultPort;
      path := DefaultPath;
      queryParams := [];
      ws := None;
      created := 0;
      disposed := [];
      msgsToSend := [];
      hasWork := false;
      sendSignal := false;
      onDisconnect := [];
      connectTasks := 0;
      wire := [];
      attempts := [];
      this.dispatcher := dispatcher;
      queued := [];
      taken := [];
    }

    /**
     * Open: overwrites host, port and path, keeps the previous parameters
     * when given none, starts a Connect task and adds one more reconnect
     * handler to OnDisconnect, on every call.
     */
    method Open(host: string, port: int, path: string, queryParams: Option<QueryParams>)
      modifies this`host, this`port, this`path, this`queryParams, this`onDisconnect, this`connectTasks
      ensures this.host == host && this.port == port && this.path == path
      ensures this.queryParams == if queryParams.Some? then queryParams.value else old(this.queryParams)
      ensures connectTasks == old(connectTasks) + 1
      ensures onDisconnect == old(onDisconnect) + [ReconnectAfterDelay(ReconnectDelaySeconds)]
    {
      this.host := host;
      this.port := port;
      this.path := path;
      this.queryParams := if queryParams.Some? then queryParams.value else this.queryParams;
      connectTasks := connectTasks + 1;
      onDisconnect := onDisconnect + [ReconnectAfterDelay(ReconnectDelaySeconds)];
    }

    /**
     * QueueMessage(string), with the UTF-8 bytes of the message as input:
     * appends one frame holding exactly those bytes after the earlier ones,
     * raises the flag and signals the send loop.
     */
    method QueueMessage(payload: seq<byte>)
      requires Valid()
      modifies this`msgsToSend, this`hasWork, this`sendSignal, this`queued
      ensures Valid()
      ensures msgsToSend == old(msgsToSend) + [payload]
      ensures hasWork && sendSignal
      ensures queued == old(queued) + [payload]
    {
      msgsToSend := msgsToSend + [payload];
      hasWork := true;
      sendSignal := true;
      queued := queued + [payload];
    }

    /**
     * The critical section of Send. Without work it takes nothing and changes
     * nothing. Otherwise it returns a copy of every pending frame, in order,
     * each in its own new array, and empties the queue.
     */
    method TakeBatch() returns (toSend: seq<array<byte>>)
      requires Valid()
      modifies this`msgsToSend, this`hasWork, this`taken
      ensures Valid()
      ensures !old(hasWork) ==> toSend == [] && msgsToSend == old(msgsToSend) && !hasWork && taken == old(taken)
      ensures old(hasWork) ==> msgsToSend == [] && !hasWork && taken == old(taken) + old(msgsToSend)
      ensures Snapshot(toSend) == old(msgsToSend)
      ensures forall k :: 0 <= k < |toSend| ==> fresh(toSend[k])
      ensures forall k, l :: 0 <= k < l < |toSend| ==> toSend[k] != toSend[l]
    {
      toSend := [];
      if !hasWork {
        return;
      }
      var i := 0;
      while i < |msgsToSend|
        invariant 0 <= i <= |msgsToSend|
        invariant |toSend| == i
        invariant forall k :: 0 <= k < i ==> fresh(toSend[k]) && toSend[k][..] == msgsToSend[k]
        invariant forall k, l :: 0 <= k < l < i ==> toSend[k] != toSend[l]
        invariant msgsToSend == old(msgsToSend) && hasWork && taken == old(taken)
      {
        var copy := CopyBytes(msgsToSend[i]);
        toSend := toSend + [copy];
        i := i + 1;
      }
      assert Snapshot(toSend) == msgsToSend;
      taken := taken + msgsToSend;
      msgsToSend := [];
      hasWork := false;
    }

    /** How many frames of an `n`-frame batch reach the transport. */
    static function Delivered(outcome: SendOutcome, live: bool, n: nat): (d: nat)
      ensures d <= n
      ensures !live ==> d == 0
      ensures live && (outcome.AllSent? || outcome.index >= n) ==> d == n
      ensures live && outcome.SendThrows? && outcome.index < n ==> d == outcome.index
    {
      if !live then 0
      else match outcome
        case AllSent => n
        case SendThrows(index, _) => Min(index, n)
    }

    /** The message of the exception that ends a batch early. */
    static function SendError(outcome: SendOutcome, live: bool): string
    {
      if !live || outcome.AllSent? then NullReferenceMessage else outcome.message
    }

    /** `if (_ws != null) _ws.Dispose(); _ws = null;`: the live handle, if any, is released once. */
    method ReleaseSocket()
      requires HandlesValid()
      modifies this`ws, this`disposed
      ensures HandlesValid()
      ensures ws == None && disposed == old(disposed) + Released(old(ws))
    {
      if ws.Some? {
        disposed := disposed + [ws.value];
      }
      ws := None;
    }

    /**
     * The catch blocks of the send and receive loops: the live socket, if
     * any, is released, `_ws` becomes null, and the exception is logged.
     */
    method Abandon(message: string)
      requires HandlesValid()
      modifies this`ws, this`disposed, dispatcher`backlog, dispatcher`queued, dispatcher`enqueued
      ensures HandlesValid()
      ensures ws == None && disposed == old(disposed) + Released(old(ws))
      ensures dispatcher.Enqueued([Print(Error, ExceptionText(message))])
    {
      ReleaseSocket();
      dispatcher.LogError(ExceptionText(message));
    }

    /**
     * What one send iteration does to the queue and the wire, on a socket
     * that was live or null: without work, nothing; otherwise the whole queue
     * is taken, the frames delivered before a send throws reach the wire, and
     * the wait consumes the signal.
     */
    twostate predicate SendEffect(outcome: SendOutcome, live: bool)
      reads this`msgsToSend, this`hasWork, this`taken, this`wire, this`sendSignal
    {
      if !old(hasWork) then
        && msgsToSend == old(msgsToSend) && !hasWork && taken == old(taken) && wire == old(wire)
        && sendSignal == old(sendSignal)
      else
        var batch := old(msgsToSend);
        && msgsToSend == [] && !hasWork && !sendSignal
        && taken == old(taken) + batch
        && wire == old(wire) + batch[..Delivered(outcome, live, |batch|)]
    }

    /**
     * What the loops may do to the queue and the wire: nothing is queued and
     * nothing leaves the queue except to be taken, the wire and the taken
     * trace only grow, the frames sent meanwhile are the frames taken
     * meanwhile in the same order, some of them lost, and the signal is
     * never raised.
     */
    twostate predicate Progressed()
      reads this`msgsToSend, this`taken, this`wire, this`sendSignal
    {
      && taken + msgsToSend == old(taken) + old(msgsToSend)
      && old(wire) <= wire && old(taken) <= taken
      && Subsequence(wire[|old(wire)|..], taken[|old(taken)|..])
      && (sendSignal ==> old(sendSignal))
    }

    /**
     * One iteration of the send loop. Without work nothing happens (the
     * `continue` skips even the wait). Otherwise the batch is taken and its
     * frames are handed to the transport in queue order until one send
     * throws; then the socket is released, `_ws` becomes null, the error is
     * logged and the rest of the batch is lost. The wait consumes the signal.
     */
    method SendIteration(outcome: SendOutcome)
      requires Valid()
      modifies this`msgsToSend, this`hasWork, this`taken, this`wire, this`ws, this`disposed, this`sendSignal
      modifies dispatcher`backlog, dispatcher`queued, dispatcher`enqueued
      ensures Valid()
      ensures SendEffect(outcome, old(ws).Some?)
      ensures !old(hasWork) ==> ws == old(ws) && disposed == old(disposed) && dispatcher.Enqueued([])
      ensures old(hasWork) ==>
        var batch := old(msgsToSend);
        var k := Delivered(outcome, old(ws).Some?, |batch|);
        && (k == |batch| ==> ws == old(ws) && disposed == old(disposed) && dispatcher.Enqueued([]))
        && (k < |batch| ==>
              && ws == None && disposed == old(disposed) + Released(old(ws))
              && dispatcher.Enqueued([Print(Error, ExceptionText(SendError(outcome, old(ws).Some?)))]))
    {
      var toSend := TakeBatch();
      if toSend == [] {
        assert |Snapshot(toSend)| == 0;
        return;
      }
      var failure := SendBatch(toSend, outcome);
      if failure.Some? {
        Abandon(failure.value);
      }
      sendSignal := false;
    }

    /**
     * The try block of Send: hands the frames to the transport in order
     * until a send throws, and returns that exception's message.
     */
    method SendBatch(toSend: seq<array<byte>>, outcome: SendOutcome) returns (failure: Option<string>)
      requires toSend != []
      modifies this`wire
      ensures var batch := Snapshot(toSend);
        var k := Delivered(outcome, ws.Some?, |batch|);
        && wire == old(wire) + batch[..k]
        && (failure.None? <==> k == |batch|)
        && (failure.Some? ==> failure.value == SendError(outcome, ws.Some?))
    {
      ghost var batch := Snapshot(toSend);
      ghost var k := Delivered(outcome, ws.Some?, |batch|);
      failure := None;
      var i := 0;
      while i < |toSend| && failure.None?
        invariant 0 <= i <= k <= |toSend|
        invariant wire == old(wire) + batch[..i]
        invariant failure.Some? ==> i == k < |toSend| && failure.value == SendError(outcome, ws.Some?)
        invariant failure.None? ==> i <= k
        decreases |toSend| - i, failure.None?
      {
        if ws.None? {
          failure := Some(NullReferenceMessage);
        } else if outcome.SendThrows? && outcome.index == i {
          failure := Some(outcome.message);
        } else {
          assert batch[..i + 1] == batch[..i] + [toSend[i][..]];
          wire := wire + [toSend[i][..]];
          i := i + 1;
        }
      }
      assert failure.None? ==> i == |toSend| == k;
    }

    /**
     * One iteration of the receive loop: the bytes received fill a new
     * 1024-byte buffer that is dispatched whole to OnMessage. A throwing
     * receive (or a null `_ws`) releases the socket, sets `_ws` to null and
     * logs the error.
     */
    method ReceiveIteration(outcome: ReceiveOutcome)
      requires Valid()
      modifies this`ws, this`disposed, dispatcher`backlog, dispatcher`queued, dispatcher`enqueued
      ensures Valid()
      ensures old(ws).Some? && outcome.Received? ==>
        ws == old(ws) && disposed == old(disposed)
        && dispatcher.Enqueued([RaiseOnMessage(ReceiveBuffer(outcome.data))])
      ensures !(old(ws).Some? && outcome.Received?) ==>
        && ws == None && disposed == old(disposed) + Released(old(ws))
        && dispatcher.Enqueued([Print(Error, ExceptionText(
             if old(ws).None? then NullReferenceMessage else outcome.message))])
    {
      var buffer := new byte[ReceiveBufferSize](_ => 0);
      if ws.Some? && outcome.Received? {
        var data := outcome.data;
        var n := Min(|data|, ReceiveBufferSize);
        forall k | 0 <= k < n {
          buffer[k] := data[k];
        }
        assert buffer[..] == ReceiveBuffer(data);
        dispatcher.RunOnMainThread(RaiseOnMessage(buffer[..]));
      } else {
        var message := if ws.None? then NullReferenceMessage else outcome.message;
        Abandon(message);
      }
    }

    /** One loop iteration of a session: it dispatches only loop closures and releases the socket at most once. */
    method RunStep(step: LoopStep) returns (ghost dispatched: seq<ClientAction>)
      requires Valid()
      modifies this`msgsToSend, this`hasWork, this`taken, this`wire, this`ws, this`disposed, this`sendSignal
      modifies dispatcher`backlog, dispatcher`queued, dispatcher`enqueued
      ensures Valid()
      ensures ws == old(ws) || ws == None
      ensures disposed == old(disposed) + (if ws == old(ws) then [] else Released(old(ws)))
      ensures dispatcher.Enqueued(dispatched)
      ensures forall k :: 0 <= k < |dispatched| ==> LoopAction(dispatched[k])
      ensures step.SendStep? ==> SendEffect(step.send, old(ws).Some?)
      ensures step.ReceiveStep? ==>
        msgsToSend == old(msgsToSend) && taken == old(taken) && wire == old(wire) && sendSignal == old(sendSignal)
      ensures Progressed()
    {
      match step {
        case SendStep(o) =>
          ghost var live := ws.Some?;
          ghost var work := hasWork;
          ghost var batch := msgsToSend;
          ghost var n := |msgsToSend|;
          SendIteration(o);
          if work {
            assert wire[|old(wire)|..] == batch[..Delivered(o, live, n)];
            assert taken[|old(taken)|..] == batch;
            SubsequencePrefix(batch, Delivered(o, live, n));
          } else {
            assert wire[|old(wire)|..] == [] && taken[|old(taken)|..] == [];
          }
          if work && Delivered(o, live, n) < n {
            dispatched := [Print(Error, ExceptionText(SendError(o, live)))];
          } else {
            dispatched := [];
          }
        case ReceiveStep(o) =>
          ghost var live := ws.Some?;
          ReceiveIteration(o);
          assert wire[|old(wire)|..] == [] && taken[|old(taken)|..] == [];
          if live && o.Received? {
            dispatched := [RaiseOnMessage(ReceiveBuffer(o.data))];
          } else {
            dispatched := [Print(Error, ExceptionText(if !live then NullReferenceMessage else o.message))];
          }
      }
    }

    /**
     * The two loops of a session, run in the order of `steps`. They only
     * dispatch messages and error logs, and release the socket at most once.
     */
    method RunLoops(steps: seq<LoopStep>) returns (ghost dispatched: seq<ClientAction>)
      requires Valid()
      modifies this`msgsToSend, this`hasWork, this`taken, this`wire, this`ws, this`disposed, this`sendSignal
      modifies dispatcher`backlog, dispatcher`queued, dispatcher`enqueued
      ensures Valid()
      ensures ws == old(ws) || ws == None
      ensures disposed == old(disposed) + (if ws == old(ws) then [] else Released(old(ws)))
      ensures dispatcher.Enqueued(dispatched)
      ensures forall k :: 0 <= k < |dispatched| ==> LoopAction(dispatched[k])
      ensures Progressed()
    {
      dispatched := [];
      assert wire[|wire|..] == [] && taken[|taken|..] == [];
      var i := 0;
      while i < |steps|
        invariant 0 <= i <= |steps|
        invariant Valid()
        invariant ws == old(ws) || ws == None
        invariant disposed == old(disposed) + (if ws == old(ws) then [] else Released(old(ws)))
        invariant dispatcher.Enqueued(dispatched)
        invariant forall k :: 0 <= k < |dispatched| ==> LoopAction(dispatched[k])
        invariant Progressed()
      {
        ghost var sent := wire;
        ghost var before := taken;
        var added := RunStep(steps[i]);
        SubsequenceGrowth(old(wire), sent, wire, old(taken), before, taken);
        dispatched := dispatched + added;
        i := i + 1;
      }
    }

    /**
     * The try and catch blocks of Connect, on a live socket: a refused
     * handshake logs its error; an accepted one dispatches OnConnect, runs the
     * loops, and logs what Task.WhenAll throws.
     */
    method TryConnect(h: Handshake) returns (ghost loops: seq<ClientAction>)
      requires Valid() && ws.Some?
      modifies this`msgsToSend, this`hasWork, this`taken, this`wire, this`ws, this`disposed, this`sendSignal
      modifies dispatcher`backlog, dispatcher`queued, dispatcher`enqueued
      ensures Valid()
      ensures ws == old(ws) || ws == None
      ensures disposed == old(disposed) + (if ws == old(ws) then [] else Released(old(ws)))
      ensures forall k :: 0 <= k < |loops| ==> LoopAction(loops[k])
      ensures dispatcher.Enqueued(TryDispatches(h, loops))
      ensures Progressed()
      ensures h.Refused? ==>
        && loops == [] && ws == old(ws)
        && msgsToSend == old(msgsToSend) && taken == old(taken) && wire == old(wire) && sendSignal == old(sendSignal)
    {
      loops := [];
      match h {
        case Refused(m) =>
          dispatcher.LogError(ExceptionText(m));
          assert wire[|wire|..] == [] && taken[|taken|..] == [];
        case Accepted(steps, fault) =>
          loops := RunConnected(steps, fault);
      }
    }

    /**
     * The try block after ConnectAsync completes: OnConnect is dispatched,
     * the loops run, and what Task.WhenAll throws is logged.
     */
    method RunConnected(steps: seq<LoopStep>, fault: Option<string>) returns (ghost loops: seq<ClientAction>)
      requires Valid()
      modifies this`msgsToSend, this`hasWork, this`taken, this`wire, this`ws, this`disposed, this`sendSignal
      modifies dispatcher`backlog, dispatcher`queued, dispatcher`enqueued
      ensures Valid()
      ensures ws == old(ws) || ws == None
      ensures disposed == old(disposed) + (if ws == old(ws) then [] else Released(old(ws)))
      ensures forall k :: 0 <= k < |loops| ==> LoopAction(loops[k])
      ensures dispatcher.Enqueued(TryDispatches(Accepted(steps, fault), loops))
      ensures Progressed()
    {
      ghost var before := dispatcher.backlog;
      ghost var trace := dispatcher.enqueued;
      dispatcher.RunOnMainThread(RaiseOnConnect);
      loops := RunLoops(steps);
      AppendAssoc(before, [RaiseOnConnect], loops);
      AppendAssoc(trace, [RaiseOnConnect], loops);
      ghost var log: seq<ClientAction> := [];
      if fault.Some? {
        log := [Print(Error, ExceptionText(fault.value))];
        dispatcher.LogError(ExceptionText(fault.value));
      }
      AppendAssoc(before, [RaiseOnConnect] + loops, log);
      AppendAssoc(trace, [RaiseOnConnect] + loops, log);
      assert TryDispatches(Accepted(steps, fault), loops) == [RaiseOnConnect] + loops + log;
    }

    /** The finally block of Connect: releases the socket, nulls `_ws`, dispatches OnDisconnect and the completion log. */
    method Finally()
      requires Valid()
      modifies this`ws, this`disposed, dispatcher`backlog, dispatcher`queued, dispatcher`enqueued
      ensures Valid()
      ensures ws == None && disposed == old(disposed) + Released(old(ws))
      ensures dispatcher.Enqueued(Teardown())
    {
      ReleaseSocket();
      dispatcher.RunOnMainThread(RaiseOnDisconnect);
      dispatcher.Log(CompletionMessage);
    }

    /**
     * Connect from ConnectAsync on: the attempt targets `uri`; the try and
     * catch blocks run, then the finally block releases the live socket.
     */
    method Session(h: Handshake, uri: Uri) returns (ghost loops: seq<ClientAction>)
      requires Valid() && ws.Some?
      modifies this`ws, this`disposed, this`attempts
      modifies this`msgsToSend, this`hasWork, this`taken, this`wire, this`sendSignal
      modifies dispatcher`backlog, dispatcher`queued, dispatcher`enqueued
      ensures Valid()
      ensures ws == None && disposed == old(disposed) + [old(ws).value]
      ensures attempts == old(attempts) + [uri]
      ensures forall k :: 0 <= k < |loops| ==> LoopAction(loops[k])
      ensures dispatcher.Enqueued(ConnectDispatches(h, loops))
      ensures Progressed()
      ensures h.Refused? ==>
        loops == [] && msgsToSend == old(msgsToSend) && taken == old(taken) && wire == old(wire) && sendSignal == old(sendSignal)
    {
      attempts := attempts + [uri];
      loops := TryConnect(h);
      Finally();
    }

    /** `_ws = new ClientWebSocket()`: a handle never seen before becomes live. */
    method NewSocket()
      requires HandlesValid()
      modifies this`ws, this`created
      ensures HandlesValid()
      ensures ws == Some(old(created)) && created == old(created) + 1
    {
      ws := Some(created);
      created := created + 1;
    }

    /**
     * Connect. A new socket becomes `_ws`. When UriBuilder rejects the port
     * the exception escapes before the try block: nothing is dispatched and
     * `_ws` keeps the new socket. Otherwise ConnectAsync gets the target
     * built from the configuration, and whatever the handshake and the loops
     * do, `_ws` ends null, the new socket is released exactly once, and the
     * dispatched closures are ConnectDispatches (see ConnectDispatchOrder).
     */
    method Connect(h: Handshake) returns (ghost loops: seq<ClientAction>)
      requires Valid()
      modifies this`ws, this`created, this`disposed, this`attempts
      modifies this`msgsToSend, this`hasWork, this`taken, this`wire, this`sendSignal
      modifies dispatcher`backlog, dispatcher`queued, dispatcher`enqueued
      ensures Valid()
      ensures created == old(created) + 1
      ensures !ValidPort(port) ==>
        && ws == Some(old(created)) && disposed == old(disposed) && attempts == old(attempts)
        && msgsToSend == old(msgsToSend) && taken == old(taken) && wire == old(wire) && sendSignal == old(sendSignal)
        && dispatcher.Enqueued([])
      ensures ValidPort(port) ==>
        && ws == None
        && disposed == old(disposed) + [old(created)]
        && attempts == old(attempts) + [Target()]
        && (forall k :: 0 <= k < |loops| ==> LoopAction(loops[k]))
        && dispatcher.Enqueued(ConnectDispatches(h, loops))
      ensures Progressed()
      ensures h.Refused? ==>
        loops == [] && msgsToSend == old(msgsToSend) && taken == old(taken) && wire == old(wire) && sendSignal == old(sendSignal)
    {
      NewSocket();
      var query := BuildQueryString(queryParams);
      loops := [];
      if !ValidPort(port) {
        assert wire[|wire|..] == [] && taken[|taken|..] == [];
        return;
      }
      loops := Session(h, Uri(Scheme, host, port, path, query));
    }

    /**
     * DisposeAsync: tries the close handshake, logs what it throws (with a
     * null `_ws` that is a NullReferenceException), then releases the socket
     * if there is one and sets `_ws` to null.
     */
    method DisposeAsync(outcome: CloseOutcome)
      requires Valid()
      modifies this`ws, this`disposed, dispatcher`backlog, dispatcher`queued, dispatcher`enqueued
      ensures Valid()
      ensures ws == None
      ensures disposed == old(disposed) + Released(old(ws))
      ensures old(ws).None? ==> dispatcher.Enqueued([Print(Error, ExceptionText(NullReferenceDescription))])
      ensures old(ws).Some? && outcome.CloseCompleted? ==> dispatcher.Enqueued([])
      ensures old(ws).Some? && outcome.CloseThrows? ==>
        dispatcher.Enqueued([Print(Error, ExceptionText(outcome.description))])
    {
      if ws.None? {
        dispatcher.LogError(ExceptionText(NullReferenceDescription));
      } else if outcome.CloseThrows? {
        dispatcher.LogError(ExceptionText(outcome.description));
      }
      ReleaseSocket();
    }

    /**
     * Two messages queued on an open connection, then one send iteration in
     * which every send completes: the transport sees exactly those two
     * frames, in queue order.
     */
    method QueueTwoThenSend(first: seq<byte>, second: seq<byte>)
      requires Valid() && ws.Some? && msgsToSend == []
      modifies this`msgsToSend, this`hasWork, this`sendSignal, this`queued, this`taken, this`wire, this`ws, this`disposed
      modifies dispatcher`backlog, dispatcher`queued, dispatcher`enqueued
      ensures Valid()
      ensures wire == old(wire) + [first, second]
      ensures msgsToSend == [] && ws == old(ws) && dispatcher.Enqueued([])
    {
      QueueMessage(first);
      QueueMessage(second);
      SendIteration(AllSent);
    }
  }
}
