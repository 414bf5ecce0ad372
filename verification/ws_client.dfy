/**
 * The browser-side WebSocket client: the connect guard, the reconnect
 * counter with its exponential delay, the send guards of subscribe and
 * unsubscribe, the listener set and its notification loop, and disconnect.
 *
 * The client is a state record. Socket events (open, close, error) are
 * transitions on it, and only events of the current socket are modelled.
 * Frames the client sends, reconnect timers it schedules and `close` calls
 * it makes are appended to logs in the record.
 */
module WebSocketClient {
  import opened Common
  import Gateway
  import QuoteService

  datatype ReadyState = Connecting | Open | Closing | Closed

  /** An abstract listener callback. */
  type ListenerId = nat

  datatype CloseCall = CloseCall(code: int, reason: string)

  datatype Client = Client(
    socket: Option<ReadyState>,   // the held socket and its ready state
    connecting: bool,
    attempts: nat,                // reconnects scheduled since the last successful open
    listeners: seq<ListenerId>,   // an insertion-ordered set
    sent: seq<Gateway.Json>,      // frames sent on the socket
    delays: seq<nat>,             // delays of the reconnect timers scheduled, in ms
    closes: seq<CloseCall>)       // `close` calls made on the socket

  const MaxAttempts: nat := 5
  const BaseDelay: nat := 1000

  /** A newly constructed client. */
  const Fresh: Client := Client(None, false, 0, [], [], [], [])

  /** How the promise returned by `connect` ends, as far as `connect` itself decides. */
  datatype Outcome = Resolved | Rejected | Pending

  datatype Connected = Connected(client: Client, outcome: Outcome)

  predicate IsOpen(c: Client)
  {
    c.socket == Some(Open)
  }

  /**
   * `connect`. While an attempt is in flight or the socket is open it
   * resolves at once and changes nothing. Otherwise it opens a new socket;
   * `constructorThrows` says whether the `WebSocket` constructor throws.
   */
  function Connect(c: Client, constructorThrows: bool): (r: Connected)
    ensures c.connecting || IsOpen(c) ==> r == Connected(c, Resolved)
    ensures !(c.connecting || IsOpen(c)) && constructorThrows ==>
      r.outcome == Rejected && r.client == c.(connecting := false)
    ensures !(c.connecting || IsOpen(c)) && !constructorThrows ==>
      r.outcome == Pending && r.client.connecting && r.client.socket == Some(Connecting)
      && r.client == c.(connecting := true, socket := Some(Connecting))
  {
    if c.connecting || IsOpen(c) then Connected(c, Resolved)
    else if constructorThrows then Connected(c.(connecting := false), Rejected)
    else Connected(c.(connecting := true, socket := Some(Connecting)), Pending)
  }

  /** A second `connect` while the first is in flight starts no second socket. */
  lemma ConnectInFlight(c: Client, constructorThrows: bool)
    requires !(c.connecting || IsOpen(c))
    ensures var started := Connect(c, false).client;
      Connect(started, constructorThrows) == Connected(started, Resolved)
  {
  }

  /** The socket's `onopen`: the counter resets. */
  function Opened(c: Client): (r: Client)
    ensures IsOpen(r) && !r.connecting && r.attempts == 0
    ensures r.sent == c.sent && r.delays == c.delays && r.listeners == c.listeners
  {
    c.(socket := Some(Open), connecting := false, attempts := 0)
  }

  /** `scheduleReconnect`: the delay grows with the number of attempts so far. */
  function ScheduleReconnect(c: Client): (r: Client)
    ensures r.delays == c.delays + [BaseDelay * Pow(2, c.attempts)]
    ensures r.attempts == c.attempts + 1
  {
    c.(delays := c.delays + [BaseDelay * Pow(2, c.attempts)], attempts := c.attempts + 1)
  }

  /**
   * The socket's `onclose`: the socket is dropped, and a reconnect is
   * scheduled only after an unclean close while fewer than five have been.
   */
  function Closed(c: Client, wasClean: bool): (r: Client)
    ensures r.socket == None && !r.connecting
    ensures !wasClean && c.attempts < MaxAttempts ==>
      r.delays == c.delays + [BaseDelay * Pow(2, c.attempts)] && r.attempts == c.attempts + 1
    ensures wasClean || c.attempts >= MaxAttempts ==>
      r.delays == c.delays && r.attempts == c.attempts
    ensures r.sent == c.sent && r.listeners == c.listeners
  {
    var dropped := c.(connecting := false, socket := None);
    if !wasClean && c.attempts < MaxAttempts then ScheduleReconnect(dropped) else dropped
  }

  /** The socket's `onerror`: the attempt is over; the socket is kept. */
  function Errored(c: Client): (r: Client)
    ensures !r.connecting
    ensures r == c.(connecting := false)
  {
    c.(connecting := false)
  }

  /** `subscribe` and `unsubscribe`: send the frame only on an open socket. */
  function SendFrame(c: Client, f: Gateway.Frame): (r: Client)
    ensures IsOpen(c) ==> r.sent == c.sent + [Gateway.Encode(f)]
    ensures !IsOpen(c) ==> r == c
    ensures r == c.(sent := r.sent)
  {
    if IsOpen(c) then c.(sent := c.sent + [Gateway.Encode(f)]) else c
  }

  function Subscribe(c: Client, symbols: seq<string>): (r: Client)
    ensures IsOpen(c) ==> r.sent == c.sent + [Gateway.Encode(Gateway.Frame(Gateway.Sub, symbols))]
    ensures !IsOpen(c) ==> r == c
  {
    SendFrame(c, Gateway.Frame(Gateway.Sub, symbols))
  }

  function Unsubscribe(c: Client, symbols: seq<string>): (r: Client)
    ensures IsOpen(c) ==> r.sent == c.sent + [Gateway.Encode(Gateway.Frame(Gateway.Unsub, symbols))]
    ensures !IsOpen(c) ==> r == c
  {
    SendFrame(c, Gateway.Frame(Gateway.Unsub, symbols))
  }

  /** `addSubscriber`. */
  function AddListener(c: Client, l: ListenerId): (r: Client)
    ensures forall x :: x in r.listeners <==> x in c.listeners || x == l
    ensures NoDup(c.listeners) ==> NoDup(r.listeners)
  {
    if l in c.listeners then c else c.(listeners := c.listeners + [l])
  }

  /** `removeSubscriber`. */
  function RemoveListener(c: Client, l: ListenerId): (r: Client)
    ensures forall x :: x in r.listeners <==> x in c.listeners && x != l
    ensures NoDup(c.listeners) ==> NoDup(r.listeners)
  {
    c.(listeners := QuoteService.Without(c.listeners, {l}))
  }

  /** One listener invocation inside `notifySubscribers`, and whether it threw. */
  datatype Call = Call(listener: ListenerId, threw: bool)

  /**
   * `notifySubscribers`: each listener is invoked in turn inside its own
   * try/catch, so an exception is logged and the loop goes on.
   */
  function Notify(listeners: seq<ListenerId>, throws: ListenerId -> bool): (calls: seq<Call>)
    ensures |calls| == |listeners|
    ensures forall k :: 0 <= k < |calls| ==> calls[k].listener == listeners[k]
    ensures forall k :: 0 <= k < |calls| ==> calls[k].threw == throws(listeners[k])
    decreases |listeners|
  {
    if |listeners| == 0 then []
    else [Call(listeners[0], throws(listeners[0]))] + Notify(listeners[1..], throws)
  }

  /** Every listener hears the quote, those after a throwing one included. */
  lemma NotifyReachesAll(listeners: seq<ListenerId>, throws: ListenerId -> bool, l: ListenerId)
    requires l in listeners
    ensures exists k :: 0 <= k < |listeners| && Notify(listeners, throws)[k].listener == l
  {
    var k :| 0 <= k < |listeners| && listeners[k] == l;
    assert Notify(listeners, throws)[k].listener == l;
  }

  /**
   * The socket's `onmessage`: whatever the server sent, a quote push or
   * its error reply, goes to every listener; a frame that does not parse
   * notifies nobody.
   */
  function Received(c: Client, data: Option<QuoteService.Payload>, throws: ListenerId -> bool): (calls: seq<Call>)
    ensures data.None? ==> calls == []
    ensures data.Some? ==>
      (|calls| == |c.listeners| && forall k :: 0 <= k < |calls| ==> calls[k] == Call(c.listeners[k], throws(c.listeners[k])))
  {
    if data.Some? then Notify(c.listeners, throws) else []
  }

  /** `disconnect`: close a held socket with code 1000, drop it, and clear the listeners. */
  function Disconnect(c: Client): (r: Client)
    ensures r.socket == None && r.listeners == []
    ensures c.socket.Some? ==> r.closes == c.closes + [CloseCall(1000, "Client disconnect")]
    ensures c.socket.None? ==> r.closes == c.closes
    ensures r.attempts == c.attempts && r.delays == c.delays && r.sent == c.sent
  {
    var closed := if c.socket.Some? then c.(closes := c.closes + [CloseCall(1000, "Client disconnect")], socket := None) else c;
    closed.(listeners := [])
  }

  /** Whatever happens to the client, in the order it happens. */
  datatype Event =
    | ConnectCall(constructorThrows: bool)   // a call of `connect`, or a reconnect timer firing
    | SocketOpen
    | SocketClose(wasClean: bool)
    | SocketError
    | SubscribeCall(symbols: seq<string>)
    | UnsubscribeCall(symbols: seq<string>)
    | AddListenerCall(l: ListenerId)
    | RemoveListenerCall(l: ListenerId)
    | DisconnectCall

  function Apply(c: Client, e: Event): (r: Client)
    ensures e.SocketOpen? ==> r.attempts == 0
    ensures !e.SocketOpen? && r.attempts != c.attempts ==>
      e.SocketClose? && !e.wasClean && c.attempts < MaxAttempts
    ensures r.sent != c.sent ==> IsOpen(c) && (e.SubscribeCall? || e.UnsubscribeCall?)
  {
    match e
    case ConnectCall(t) => Connect(c, t).client
    case SocketOpen => Opened(c)
    case SocketClose(clean) => Closed(c, clean)
    case SocketError => Errored(c)
    case SubscribeCall(symbols) => Subscribe(c, symbols)
    case UnsubscribeCall(symbols) => Unsubscribe(c, symbols)
    case AddListenerCall(l) => AddListener(c, l)
    case RemoveListenerCall(l) => RemoveListener(c, l)
    case DisconnectCall => Disconnect(c)
  }

  function Run(c: Client, events: seq<Event>): Client
    decreases |events|
  {
    if |events| == 0 then c else Run(Apply(c, events[0]), events[1..])
  }

  /** The delays of reconnects number `from` to `from + count - 1`. */
  function Backoff(from: nat, count: nat): (ds: seq<nat>)
    ensures |ds| == count
    ensures forall k :: 0 <= k < count ==> ds[k] == BaseDelay * Pow(2, from + k)
    decreases count
  {
    if count == 0 then [] else Backoff(from, count - 1) + [BaseDelay * Pow(2, from + count - 1)]
  }

  lemma BackoffSplit(from: nat, a: nat, b: nat)
    ensures Backoff(from, a) + Backoff(from + a, b) == Backoff(from, a + b)
  {
  }

  /** Two runs of consecutive reconnects make one. */
  lemma DelaysCompose(first: seq<nat>, middle: seq<nat>, last: seq<nat>, from: nat, a: nat, b: nat)
    requires middle == first + Backoff(from, a)
    requires last == middle + Backoff(from + a, b)
    ensures last == first + Backoff(from, a + b)
  {
    BackoffSplit(from, a, b);
    assert first + Backoff(from, a) + Backoff(from + a, b) == first + (Backoff(from, a) + Backoff(from + a, b));
  }

  /** One event other than an open schedules at most the next reconnect in the sequence. */
  lemma ApplyBackoff(c: Client, e: Event)
    requires !e.SocketOpen?
    ensures var r := Apply(c, e);
      c.attempts <= r.attempts <= c.attempts + 1
      && r.delays == c.delays + Backoff(c.attempts, r.attempts - c.attempts)
  {
    var r := Apply(c, e);
    if r.attempts == c.attempts {
      assert r.delays == c.delays;
      assert Backoff(c.attempts, 0) == [];
    } else {
      assert r.delays == c.delays + [BaseDelay * Pow(2, c.attempts)];
    }
  }

  /** The counter never passes five, whatever happens. */
  lemma {:induction false} AttemptsBounded(c: Client, events: seq<Event>)
    requires c.attempts <= MaxAttempts
    ensures Run(c, events).attempts <= MaxAttempts
    decreases |events|
  {
    if |events| > 0 {
      AttemptsBounded(Apply(c, events[0]), events[1..]);
    }
  }

  /**
   * Between successful opens, the scheduled reconnects continue the
   * doubling sequence from the current count: reconnect number n waits
   * 1000 * 2^n ms, and at most five are scheduled in a row.
   */
  lemma {:induction false} BackoffWithoutOpen(c: Client, events: seq<Event>)
    requires c.attempts <= MaxAttempts
    requires forall k :: 0 <= k < |events| ==> !events[k].SocketOpen?
    ensures var r := Run(c, events);
      c.attempts <= r.attempts <= MaxAttempts
      && r.delays == c.delays + Backoff(c.attempts, r.attempts - c.attempts)
    decreases |events|
  {
    if |events| == 0 {
      assert Backoff(c.attempts, 0) == [];
    } else {
      var next := Apply(c, events[0]);
      var r := Run(next, events[1..]);
      assert Run(c, events) == r;
      ApplyBackoff(c, events[0]);
      BackoffWithoutOpen(next, events[1..]);
      DelaysCompose(c.delays, next.delays, r.delays, c.attempts, next.attempts - c.attempts, r.attempts - next.attempts);
    }
  }

  /** A session that never opens schedules at most five reconnects, 1, 2, 4, 8 and 16 seconds out. */
  lemma NeverOpened(events: seq<Event>)
    requires forall k :: 0 <= k < |events| ==> !events[k].SocketOpen?
    ensures |Run(Fresh, events).delays| <= MaxAttempts
    ensures Run(Fresh, events).delays <= [1000, 2000, 4000, 8000, 16000]
  {
    BackoffWithoutOpen(Fresh, events);
    var ds := Run(Fresh, events).delays;
    assert Pow(2, 0) == 1 && Pow(2, 1) == 2 && Pow(2, 2) == 4 && Pow(2, 3) == 8 && Pow(2, 4) == 16;
    assert ds == [1000, 2000, 4000, 8000, 16000][..|ds|];
  }

  /** Every frame the client has sent passes the server's schema check. */
  predicate FramesValid(c: Client)
  {
    forall k :: 0 <= k < |c.sent| ==> Gateway.Validate(c.sent[k]).Some?
  }

  lemma {:induction false} RunSendsValidFrames(c: Client, events: seq<Event>)
    requires FramesValid(c)
    ensures FramesValid(Run(c, events))
    decreases |events|
  {
    if |events| > 0 {
      var next := Apply(c, events[0]);
      assert FramesValid(next) by {
        if next.sent != c.sent {
          match events[0]
          case SubscribeCall(symbols) =>
            Gateway.ValidateEncode(Gateway.Frame(Gateway.Sub, symbols));
          case UnsubscribeCall(symbols) =>
            Gateway.ValidateEncode(Gateway.Frame(Gateway.Unsub, symbols));
        }
      }
      RunSendsValidFrames(next, events[1..]);
    }
  }

  /** Nothing is sent while the socket is not open, and opening sends nothing on its own. */
  lemma NoQueueing(c: Client, events: seq<Event>)
    requires !IsOpen(c)
    requires forall k :: 0 <= k < |events| ==> !events[k].SocketOpen?
    ensures Run(c, events).sent == c.sent
    ensures Run(Opened(Run(c, events)), []).sent == c.sent
    decreases |events|
  {
    if |events| > 0 {
      var next := Apply(c, events[0]);
      assert !IsOpen(next);
      NoQueueing(next, events[1..]);
    }
  }
}
