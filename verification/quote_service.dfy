/**
 * The live quote service: the tracked symbols with their latest quotes,
 * the set of subscribed connections, the periodic price step and the
 * broadcast that follows every step.
 *
 * Connections are abstract client ids. Their socket state at broadcast
 * time is a parameter, and every `send` appends a message to an outbox.
 * Random draws and timestamps are parameters. Prices are whole cents, and
 * the repeating timer is kept only as the handle the service holds.
 */
module QuoteService {
  import opened Common

  type ClientId = nat

  /** A quote; `price` is in cents and `ts` is an opaque timestamp. */
  datatype Quote = Quote(symbol: string, price: int, ts: int)

  /** What one `send` on a connection carries. */
  datatype Payload = QuotePush(quote: Quote) | ErrorReply(error: string)

  datatype Message = Message(to: ClientId, payload: Payload)

  /** How a subscriber's socket behaves while a broadcast runs. */
  datatype Link =
    | Open                   // ready state OPEN, and every send succeeds
    | NotOpen                // any other ready state
    | FailsAfter(sent: nat)  // ready state OPEN, but send number `sent` (counting from 0) throws

  /** The repeating timer created by `startUpdates`. */
  datatype Timer = Timer(handle: nat, perSecond: real)

  /**
   * The service state. `live` is the set of timer handles the runtime
   * still fires; `nextHandle` is the handle the next timer receives.
   */
  datatype Service = Service(
    symbols: seq<string>,
    quotes: map<string, Quote>,
    subscribers: seq<ClientId>,
    updates: Option<Timer>,
    live: set<nat>,
    nextHandle: nat)

  /** The service state after an operation, and what it sent meanwhile. */
  datatype Step = Step(service: Service, outbox: seq<Message>)

  const DefaultSymbols: seq<string> :=
    ["AAPL", "MSFT", "GOOG", "AMZN", "TSLA", "META", "NVDA", "NFLX", "AMD", "INTC"]

  /** Exactly the held timer is live, and its handle was issued. */
  predicate TimersOk(s: Service)
  {
    s.live == (if s.updates.Some? then {s.updates.value.handle} else {})
    && forall h :: h in s.live ==> h < s.nextHandle
  }

  /**
   * The service invariant: every tracked symbol has exactly one quote, no
   * other quote exists, every quote is filed under its own symbol with a
   * positive price, subscribers form a set, and at most the held timer runs.
   */
  predicate Consistent(s: Service)
  {
    NoDup(s.symbols)
    && s.quotes.Keys == Elements(s.symbols)
    && (forall x :: x in s.quotes ==> s.quotes[x].symbol == x && s.quotes[x].price >= 1)
    && NoDup(s.subscribers)
    && TimersOk(s)
  }

  /** `Math.round`: the nearest integer, halves rounded up. */
  function RoundHalfUp(x: real): (n: int)
    ensures x - 0.5 < n as real <= x + 0.5
  {
    (x + 0.5).Floor
  }

  /** The opening price `Math.random() * 1000 + 50` dollars, in cents. */
  function InitialPrice(draw: real): (cents: int)
    requires UnitDraw(draw)
    ensures 5000 <= cents <= 105000
  {
    RoundHalfUp(draw * 100000.0 + 5000.0)
  }

  predicate AllUnit(draws: seq<real>)
  {
    forall i :: 0 <= i < |draws| ==> UnitDraw(draws[i])
  }

  /** The quotes `initializeQuotes` files, one per symbol, in symbol order. */
  function QuotesFor(symbols: seq<string>, draws: seq<real>, ts: int): (m: map<string, Quote>)
    requires |draws| == |symbols| && AllUnit(draws)
    ensures m.Keys == Elements(symbols)
    ensures forall x :: x in m ==> m[x].symbol == x && m[x].price >= 1
    ensures NoDup(symbols) ==>
      forall i :: 0 <= i < |symbols| ==> m[symbols[i]] == Quote(symbols[i], InitialPrice(draws[i]), ts)
    decreases |symbols|
  {
    if |symbols| == 0 then map[]
    else
      var n := |symbols| - 1;
      assert symbols == symbols[..n] + [symbols[n]];
      QuotesFor(symbols[..n], draws[..n], ts)[symbols[n] := Quote(symbols[n], InitialPrice(draws[n]), ts)]
  }

  lemma DefaultSymbolsDistinct()
    ensures NoDup(DefaultSymbols)
  {
    forall i, j | 0 <= i < j < |DefaultSymbols|
      ensures DefaultSymbols[i] != DefaultSymbols[j]
    {
      assert DefaultSymbols[i][..2] != DefaultSymbols[j][..2] || DefaultSymbols[i][2..] != DefaultSymbols[j][2..];
    }
  }

  /**
   * The constructor: the ten default symbols, each with an opening quote
   * drawn from its own random value, no subscribers and no timer.
   */
  function Initialize(draws: seq<real>, ts: int): (s: Service)
    requires |draws| == |DefaultSymbols| && AllUnit(draws)
    ensures Consistent(s)
    ensures s.symbols == DefaultSymbols && s.subscribers == [] && s.updates == None
    ensures forall i :: 0 <= i < |DefaultSymbols| ==>
      s.quotes[DefaultSymbols[i]].price == InitialPrice(draws[i])
      && 5000 <= s.quotes[DefaultSymbols[i]].price <= 105000
  {
    DefaultSymbolsDistinct();
    Service(DefaultSymbols, QuotesFor(DefaultSymbols, draws, ts), [], None, {}, 0)
  }

  /** `getSnapshot`: the requested symbols that are tracked, with their quotes. */
  function GetSnapshot(s: Service, requested: seq<string>): (snap: map<string, Quote>)
    ensures snap.Keys == (set x | x in requested && x in s.quotes)
    ensures forall x :: x in snap ==> snap[x] == s.quotes[x]
    decreases |requested|
  {
    if |requested| == 0 then map[]
    else
      var n := |requested| - 1;
      var prior := GetSnapshot(s, requested[..n]);
      assert requested == requested[..n] + [requested[n]];
      if requested[n] in s.quotes then prior[requested[n] := s.quotes[requested[n]]] else prior
  }

  /** The requested symbols that have a quote, in request order, repeats kept. */
  function Known(requested: seq<string>, quotes: map<string, Quote>): (known: seq<string>)
    ensures forall k :: 0 <= k < |known| ==> known[k] in quotes
    ensures forall x :: multiset(known)[x] == if x in quotes then multiset(requested)[x] else 0
    decreases |requested|
  {
    if |requested| == 0 then []
    else
      var n := |requested| - 1;
      assert requested == requested[..n] + [requested[n]];
      var prior := Known(requested[..n], quotes);
      if requested[n] in quotes then prior + [requested[n]] else prior
  }

  /** `subscribers.add(client)` on an insertion-ordered set. */
  function AddClient(subs: seq<ClientId>, client: ClientId): (r: seq<ClientId>)
    ensures forall c :: c in r <==> c in subs || c == client
    ensures NoDup(subs) ==> NoDup(r)
    ensures subs <= r
  {
    if client in subs then subs else subs + [client]
  }

  /** The clients of `subs` outside `gone`, in their original order. */
  function Without(subs: seq<ClientId>, gone: set<ClientId>): (r: seq<ClientId>)
    ensures forall c :: c in r <==> c in subs && c !in gone
    ensures |r| <= |subs|
    ensures NoDup(subs) ==> NoDup(r)
    decreases |subs|
  {
    if |subs| == 0 then []
    else
      var n := |subs| - 1;
      assert subs == subs[..n] + [subs[n]];
      var prior := Without(subs[..n], gone);
      if subs[n] in gone then prior
      else
        assert NoDup(subs) ==> subs[n] !in subs[..n];
        prior + [subs[n]]
  }

  lemma {:induction false} WithoutNothing(subs: seq<ClientId>, gone: set<ClientId>)
    requires forall c :: c in subs ==> c !in gone
    ensures Without(subs, gone) == subs
    decreases |subs|
  {
    if |subs| > 0 {
      var n := |subs| - 1;
      assert subs == subs[..n] + [subs[n]];
      WithoutNothing(subs[..n], gone);
    }
  }

  lemma {:induction false} WithoutTwice(subs: seq<ClientId>, a: set<ClientId>, b: set<ClientId>)
    ensures Without(Without(subs, a), b) == Without(subs, a + b)
    decreases |subs|
  {
    if |subs| > 0 {
      var n := |subs| - 1;
      var prior := Without(subs[..n], a);
      WithoutTwice(subs[..n], a, b);
      if subs[n] !in a {
        assert Without(subs, a) == prior + [subs[n]];
        assert (prior + [subs[n]])[..|prior|] == prior;
      }
    }
  }

  /**
   * `subscribe`: the client joins the subscriber set, and it is sent the
   * current quote of each requested symbol that is tracked, in request order.
   */
  function Subscribe(s: Service, client: ClientId, requested: seq<string>): (r: Step)
    ensures forall c :: c in r.service.subscribers <==> c in s.subscribers || c == client
    ensures r.service == s.(subscribers := r.service.subscribers)
    ensures Consistent(s) ==> Consistent(r.service)
    ensures var known := Known(requested, s.quotes);
      |r.outbox| == |known|
      && forall k :: 0 <= k < |known| ==> r.outbox[k] == Message(client, QuotePush(s.quotes[known[k]]))
  {
    var known := Known(requested, s.quotes);
    Step(s.(subscribers := AddClient(s.subscribers, client)),
         seq(|known|, k requires 0 <= k < |known| => Message(client, QuotePush(s.quotes[known[k]]))))
  }

  /** Every quote `subscribe` sends is the snapshot's entry for its symbol. */
  lemma SubscribeSendsSnapshot(s: Service, client: ClientId, requested: seq<string>)
    ensures var snap := GetSnapshot(s, requested);
      (forall m :: m in Subscribe(s, client, requested).outbox ==>
         m.to == client && m.payload.QuotePush? && m.payload.quote in snap.Values)
      && forall x :: x in snap ==> Message(client, QuotePush(snap[x])) in Subscribe(s, client, requested).outbox
  {
    var snap := GetSnapshot(s, requested);
    var known := Known(requested, s.quotes);
    var out := Subscribe(s, client, requested).outbox;
    forall m | m in out
      ensures m.to == client && m.payload.QuotePush? && m.payload.quote in snap.Values
    {
      var k :| 0 <= k < |out| && out[k] == m;
      assert known[k] in multiset(known);
      assert known[k] in requested;
      assert snap[known[k]] == m.payload.quote;
    }
    forall x | x in snap
      ensures Message(client, QuotePush(snap[x])) in out
    {
      assert x in multiset(requested);
      assert x in multiset(known);
      var k :| 0 <= k < |known| && known[k] == x;
      assert out[k] == Message(client, QuotePush(snap[x]));
    }
  }

  /** `unsubscribe`: the client leaves the subscriber set; nothing else changes. */
  function Unsubscribe(s: Service, client: ClientId): (r: Service)
    ensures forall c :: c in r.subscribers <==> c in s.subscribers && c != client
    ensures r == s.(subscribers := r.subscribers)
    ensures Consistent(s) ==> Consistent(r)
  {
    s.(subscribers := Without(s.subscribers, {client}))
  }

  /** Removing a client that is not subscribed changes nothing. */
  lemma UnsubscribeAbsent(s: Service, client: ClientId)
    requires client !in s.subscribers
    ensures Unsubscribe(s, client) == s
  {
    WithoutNothing(s.subscribers, {client});
  }

  lemma UnsubscribeIdempotent(s: Service, client: ClientId)
    ensures Unsubscribe(Unsubscribe(s, client), client) == Unsubscribe(s, client)
  {
    UnsubscribeAbsent(Unsubscribe(s, client), client);
  }

  /** Unsubscribing undoes subscribing, whatever symbols were requested. */
  lemma SubscribeThenUnsubscribe(s: Service, client: ClientId, requested: seq<string>)
    ensures Unsubscribe(Subscribe(s, client, requested).service, client) == Unsubscribe(s, client)
  {
    var subs := s.subscribers;
    if client !in subs {
      var grown := subs + [client];
      assert grown[..|subs|] == subs;
      assert Without(grown, {client}) == Without(subs, {client});
    }
  }

  /**
   * One price step: a change drawn from [-1%, +1%), a floor of one cent,
   * and rounding to a whole cent.
   */
  function PriceStep(cents: int, draw: real): (next: int)
    requires UnitDraw(draw)
    ensures next >= 1
  {
    var change := (draw - 0.5) * 0.02;
    RoundHalfUp(MaxReal(1.0, cents as real * (1.0 + change)))
  }

  lemma MulNonNegative(a: real, b: real)
    requires a >= 0.0 && b >= 0.0
    ensures a * b >= 0.0
  {
  }

  /** A step moves a positive price by at most 1%, up to the rounding half cent. */
  lemma PriceStepBounded(cents: int, draw: real)
    requires UnitDraw(draw) && cents >= 1
    ensures 99 * cents - 50 < 100 * PriceStep(cents, draw)
    ensures 100 * PriceStep(cents, draw) < Max(100, 101 * cents) + 50
  {
    var c := cents as real;
    var change := (draw - 0.5) * 0.02;
    var moved := c * (1.0 + change);
    assert c * 0.99 <= moved < c * 1.01 by {
      assert moved - c * 0.99 == c * (change + 0.01);
      MulNonNegative(c, change + 0.01);
      assert c * 1.01 - moved == c * (0.01 - change);
      MulNonNegative(c - 1.0, 0.01 - change);
    }
    var next := PriceStep(cents, draw);
    var floored := MaxReal(1.0, moved);
    assert floored - 0.5 < next as real <= floored + 0.5;
  }

  /** The fold of `updateQuotes`: new quotes in the map, and the list of them. */
  datatype Updated = Updated(quotes: map<string, Quote>, changed: seq<Quote>)

  function UpdateAll(quotes: map<string, Quote>, symbols: seq<string>, draws: seq<real>, ts: int): (u: Updated)
    requires |draws| == |symbols| && AllUnit(draws)
    ensures u.quotes.Keys == quotes.Keys
    ensures |u.changed| <= |symbols|
    ensures (forall x :: x in quotes ==> quotes[x].symbol == x && quotes[x].price >= 1) ==>
      forall x :: x in u.quotes ==> u.quotes[x].symbol == x && u.quotes[x].price >= 1
    decreases |symbols|
  {
    if |symbols| == 0 then Updated(quotes, [])
    else
      var n := |symbols| - 1;
      var prior := UpdateAll(quotes, symbols[..n], draws[..n], ts);
      var x := symbols[n];
      if x in prior.quotes then
        var q := Quote(x, PriceStep(prior.quotes[x].price, draws[n]), ts);
        Updated(prior.quotes[x := q], prior.changed + [q])
      else prior
  }

  /** The fold leaves the quotes of symbols outside the list alone. */
  lemma {:induction false} UpdateAllOthers(quotes: map<string, Quote>, symbols: seq<string>, draws: seq<real>, ts: int)
    requires |draws| == |symbols| && AllUnit(draws)
    ensures forall x :: x in quotes && x !in symbols ==> UpdateAll(quotes, symbols, draws, ts).quotes[x] == quotes[x]
    decreases |symbols|
  {
    if |symbols| > 0 {
      var n := |symbols| - 1;
      assert forall x :: x !in symbols ==> x !in symbols[..n] && x != symbols[n];
      UpdateAllOthers(quotes, symbols[..n], draws[..n], ts);
    }
  }

  /** With distinct, all-quoted symbols, the fold reports one stepped quote per symbol, in order. */
  lemma {:induction false} UpdateAllChanged(quotes: map<string, Quote>, symbols: seq<string>, draws: seq<real>, ts: int)
    requires |draws| == |symbols| && AllUnit(draws)
    requires NoDup(symbols) && forall i :: 0 <= i < |symbols| ==> symbols[i] in quotes
    ensures var u := UpdateAll(quotes, symbols, draws, ts);
      |u.changed| == |symbols|
      && forall i :: 0 <= i < |symbols| ==>
           u.changed[i] == Quote(symbols[i], PriceStep(quotes[symbols[i]].price, draws[i]), ts)
    decreases |symbols|
  {
    if |symbols| > 0 {
      var n := |symbols| - 1;
      var head, x := symbols[..n], symbols[n];
      assert x !in head;
      UpdateAllChanged(quotes, head, draws[..n], ts);
      UpdateAllOthers(quotes, head, draws[..n], ts);
      var prior := UpdateAll(quotes, head, draws[..n], ts);
      var u := UpdateAll(quotes, symbols, draws, ts);
      assert u.changed == prior.changed + [Quote(x, PriceStep(quotes[x].price, draws[n]), ts)];
      forall i | 0 <= i < n
        ensures u.changed[i] == Quote(symbols[i], PriceStep(quotes[symbols[i]].price, draws[i]), ts)
      {
        assert u.changed[i] == prior.changed[i];
        assert symbols[i] == head[i] && draws[i] == draws[..n][i];
      }
    }
  }

  /** With distinct symbols, each symbol's stored quote is the one the fold reports for it. */
  lemma {:induction false} UpdateAllStored(quotes: map<string, Quote>, symbols: seq<string>, draws: seq<real>, ts: int)
    requires |draws| == |symbols| && AllUnit(draws)
    requires NoDup(symbols) && forall i :: 0 <= i < |symbols| ==> symbols[i] in quotes
    ensures var u := UpdateAll(quotes, symbols, draws, ts);
      |u.changed| == |symbols|
      && forall i :: 0 <= i < |symbols| ==> symbols[i] in u.quotes && u.quotes[symbols[i]] == u.changed[i]
    decreases |symbols|
  {
    if |symbols| > 0 {
      var n := |symbols| - 1;
      var head, x := symbols[..n], symbols[n];
      UpdateAllStored(quotes, head, draws[..n], ts);
      var prior := UpdateAll(quotes, head, draws[..n], ts);
      var u := UpdateAll(quotes, symbols, draws, ts);
      assert x in prior.quotes;
      var q := Quote(x, PriceStep(prior.quotes[x].price, draws[n]), ts);
      assert u == Updated(prior.quotes[x := q], prior.changed + [q]);
      forall i | 0 <= i < n
        ensures u.quotes[symbols[i]] == u.changed[i]
      {
        assert symbols[i] == head[i] && symbols[i] != x;
        assert u.changed[i] == prior.changed[i];
      }
    }
  }

  /**
   * With distinct, all-quoted symbols, the fold steps each symbol's price
   * once from its old value, reports the new quotes in symbol order and
   * leaves every other quote alone.
   */
  lemma UpdateAllSteps(quotes: map<string, Quote>, symbols: seq<string>, draws: seq<real>, ts: int)
    requires |draws| == |symbols| && AllUnit(draws)
    requires NoDup(symbols) && forall x :: x in symbols ==> x in quotes
    ensures var u := UpdateAll(quotes, symbols, draws, ts);
      |u.changed| == |symbols|
      && (forall i :: 0 <= i < |symbols| ==>
            u.changed[i] == Quote(symbols[i], PriceStep(quotes[symbols[i]].price, draws[i]), ts)
            && u.quotes[symbols[i]] == u.changed[i])
      && forall x :: x in quotes && x !in symbols ==> u.quotes[x] == quotes[x]
  {
    UpdateAllOthers(quotes, symbols, draws, ts);
    UpdateAllChanged(quotes, symbols, draws, ts);
    UpdateAllStored(quotes, symbols, draws, ts);
  }

  /** The quotes a client's socket takes before it fails, if it fails. */
  function Sent(link: Link, quotes: seq<Quote>): (got: seq<Quote>)
    ensures got <= quotes
  {
    match link
    case Open => quotes
    case NotOpen => []
    case FailsAfter(k) => quotes[..Min(k, |quotes|)]
  }

  /** Whether the broadcast of `count` quotes marks the client dead. */
  predicate Dead(link: Link, count: nat)
  {
    match link
    case Open => false
    case NotOpen => true
    case FailsAfter(k) => k < count
  }

  /** One `send` per quote, to one client. */
  function SendAll(client: ClientId, quotes: seq<Quote>): (out: seq<Message>)
    ensures |out| == |quotes|
    ensures forall k :: 0 <= k < |out| ==> out[k] == Message(client, QuotePush(quotes[k]))
  {
    seq(|quotes|, k requires 0 <= k < |quotes| => Message(client, QuotePush(quotes[k])))
  }

  /** The first loop of `broadcastUpdates`: the dead list and everything sent. */
  datatype Pass = Pass(dead: seq<ClientId>, outbox: seq<Message>)

  function Fanout(subs: seq<ClientId>, link: ClientId -> Link, quotes: seq<Quote>): (p: Pass)
    ensures forall c :: c in p.dead <==> c in subs && Dead(link(c), |quotes|)
    ensures forall m :: m in p.outbox ==> m.to in subs && m.payload.QuotePush? && m.payload.quote in quotes
    decreases |subs|
  {
    if |subs| == 0 then Pass([], [])
    else
      var n := |subs| - 1;
      assert subs == subs[..n] + [subs[n]];
      var prior := Fanout(subs[..n], link, quotes);
      var c := subs[n];
      var out := SendAll(c, Sent(link(c), quotes));
      assert forall m :: m in out ==> m.to == c && m.payload.quote in quotes by {
        forall m | m in out
          ensures m.to == c && m.payload.quote in quotes
        {
          var k :| 0 <= k < |out| && out[k] == m;
          assert Sent(link(c), quotes)[k] == quotes[k];
        }
      }
      Pass(if Dead(link(c), |quotes|) then prior.dead + [c] else prior.dead, prior.outbox + out)
  }

  /** The second loop of `broadcastUpdates`: one `delete` per dead client. */
  function RemoveEach(subs: seq<ClientId>, dead: seq<ClientId>): (r: seq<ClientId>)
    ensures forall c :: c in r <==> c in subs && c !in dead
    decreases |dead|
  {
    if |dead| == 0 then subs else RemoveEach(Without(subs, {dead[0]}), dead[1..])
  }

  /** Deleting the dead one by one keeps the survivors in their order. */
  lemma {:induction false} RemoveEachKeepsOrder(subs: seq<ClientId>, dead: seq<ClientId>)
    ensures RemoveEach(subs, dead) == Without(subs, Elements(dead))
    decreases |dead|
  {
    if |dead| == 0 {
      assert Elements(dead) == {};
      WithoutNothing(subs, {});
    } else {
      var first, rest := dead[0], dead[1..];
      RemoveEachKeepsOrder(Without(subs, {first}), rest);
      WithoutTwice(subs, {first}, Elements(rest));
      ElementsCons(dead);
    }
  }

  lemma ElementsCons<T(!new)>(s: seq<T>)
    requires |s| > 0
    ensures Elements(s) == {s[0]} + Elements(s[1..])
  {
    assert s == [s[0]] + s[1..];
  }

  /** The clients a broadcast of `count` quotes marks dead. */
  function DeadSet(subs: seq<ClientId>, link: ClientId -> Link, count: nat): set<ClientId>
  {
    set c | c in subs && Dead(link(c), count)
  }

  lemma FanoutRemovesDead(subs: seq<ClientId>, link: ClientId -> Link, quotes: seq<Quote>)
    ensures RemoveEach(subs, Fanout(subs, link, quotes).dead) == Without(subs, DeadSet(subs, link, |quotes|))
  {
    var dead := Fanout(subs, link, quotes).dead;
    RemoveEachKeepsOrder(subs, dead);
    assert (Elements(dead)) == DeadSet(subs, link, |quotes|);
  }

  /**
   * `broadcastUpdates`: every subscriber whose socket is open is sent
   * every quote; afterwards the subscribers whose socket was not open, or
   * whose send threw, are removed, and the others stay in their order.
   */
  function Broadcast(s: Service, quotes: seq<Quote>, link: ClientId -> Link): (r: Step)
    ensures r.service == s.(subscribers := r.service.subscribers)
    ensures r.service.subscribers == Without(s.subscribers, DeadSet(s.subscribers, link, |quotes|))
    ensures forall c :: c in r.service.subscribers <==> c in s.subscribers && !Dead(link(c), |quotes|)
    ensures Consistent(s) ==> Consistent(r.service)
  {
    var pass := Fanout(s.subscribers, link, quotes);
    FanoutRemovesDead(s.subscribers, link, quotes);
    Step(s.(subscribers := RemoveEach(s.subscribers, pass.dead)), pass.outbox)
  }

  /** The payloads of the messages addressed to one client, in send order. */
  function Inbox(out: seq<Message>, client: ClientId): (got: seq<Payload>)
    ensures |got| <= |out|
    decreases |out|
  {
    if |out| == 0 then []
    else
      var n := |out| - 1;
      var prior := Inbox(out[..n], client);
      if out[n].to == client then prior + [out[n].payload] else prior
  }

  function Pushes(quotes: seq<Quote>): (ps: seq<Payload>)
    ensures |ps| == |quotes|
    ensures forall k :: 0 <= k < |ps| ==> ps[k] == QuotePush(quotes[k])
  {
    seq(|quotes|, k requires 0 <= k < |quotes| => QuotePush(quotes[k]))
  }

  lemma {:induction false} InboxAppend(a: seq<Message>, b: seq<Message>, client: ClientId)
    ensures Inbox(a + b, client) == Inbox(a, client) + Inbox(b, client)
    decreases |b|
  {
    if |b| == 0 {
      assert a + b == a;
    } else {
      var n := |b| - 1;
      assert (a + b)[..|a| + n] == a + b[..n];
      InboxAppend(a, b[..n], client);
    }
  }

  lemma {:induction false} InboxSendAll(client: ClientId, quotes: seq<Quote>, other: ClientId)
    ensures Inbox(SendAll(client, quotes), other) == if other == client then Pushes(quotes) else []
    decreases |quotes|
  {
    if |quotes| > 0 {
      var n := |quotes| - 1;
      assert SendAll(client, quotes)[..n] == SendAll(client, quotes[..n]);
      InboxSendAll(client, quotes[..n], other);
      if other == client {
        assert Pushes(quotes) == Pushes(quotes[..n]) + [QuotePush(quotes[n])];
      }
    }
  }

  /** Each subscriber's share of the fan-out is exactly what its socket took. */
  lemma {:induction false} FanoutInbox(subs: seq<ClientId>, link: ClientId -> Link, quotes: seq<Quote>, client: ClientId)
    requires NoDup(subs)
    ensures Inbox(Fanout(subs, link, quotes).outbox, client)
      == if client in subs then Pushes(Sent(link(client), quotes)) else []
    decreases |subs|
  {
    if |subs| > 0 {
      var n := |subs| - 1;
      var head := subs[..n];
      assert subs == head + [subs[n]];
      assert NoDup(head);
      FanoutInbox(head, link, quotes, client);
      var c := subs[n];
      InboxAppend(Fanout(head, link, quotes).outbox, SendAll(c, Sent(link(c), quotes)), client);
      InboxSendAll(c, Sent(link(c), quotes), client);
      if client == c {
        assert c !in head;
      }
    }
  }

  /**
   * After a broadcast, each subscriber has been sent the quotes its socket
   * accepted, all of them, in order, when the socket was open. Nobody else
   * was sent anything.
   */
  lemma BroadcastInbox(s: Service, quotes: seq<Quote>, link: ClientId -> Link, client: ClientId)
    requires NoDup(s.subscribers)
    ensures var got := Inbox(Broadcast(s, quotes, link).outbox, client);
      (client in s.subscribers ==> got == Pushes(Sent(link(client), quotes)))
      && (client in s.subscribers && link(client) == Open ==> got == Pushes(quotes))
      && (client !in s.subscribers ==> got == [])
  {
    FanoutInbox(s.subscribers, link, quotes, client);
  }

  /**
   * `updateQuotes`: step every tracked symbol's price, then broadcast the
   * new quotes. The draws give one `Math.random()` value per symbol.
   */
  function UpdateQuotes(s: Service, draws: seq<real>, ts: int, link: ClientId -> Link): (r: Step)
    requires |draws| == |s.symbols| && AllUnit(draws)
    ensures r.service.symbols == s.symbols && r.service.quotes.Keys == s.quotes.Keys
    ensures forall c :: c in r.service.subscribers <==> c in s.subscribers && !Dead(link(c), |UpdateAll(s.quotes, s.symbols, draws, ts).changed|)
    ensures Consistent(s) ==> Consistent(r.service)
  {
    var u := UpdateAll(s.quotes, s.symbols, draws, ts);
    Broadcast(s.(quotes := u.quotes), u.changed, link)
  }

  /**
   * On a consistent service, one update steps every price once and every
   * open subscriber is sent all the new quotes, in symbol order, whatever
   * symbols it asked for.
   */
  lemma UpdateQuotesBroadcasts(s: Service, draws: seq<real>, ts: int, link: ClientId -> Link, client: ClientId)
    requires Consistent(s) && |draws| == |s.symbols| && AllUnit(draws)
    ensures var r := UpdateQuotes(s, draws, ts, link);
      (forall i :: 0 <= i < |s.symbols| ==>
         r.service.quotes[s.symbols[i]] == Quote(s.symbols[i], PriceStep(s.quotes[s.symbols[i]].price, draws[i]), ts))
      && (client in s.subscribers && link(client) == Open ==>
            var got := Inbox(r.outbox, client);
            |got| == |s.symbols|
            && forall i :: 0 <= i < |s.symbols| ==> got[i] == QuotePush(r.service.quotes[s.symbols[i]]))
  {
    UpdateAllSteps(s.quotes, s.symbols, draws, ts);
    var u := UpdateAll(s.quotes, s.symbols, draws, ts);
    BroadcastInbox(s.(quotes := u.quotes), u.changed, link, client);
  }

  /** `startUpdates`: clear the held timer, if any, and start a new one. */
  function StartUpdates(s: Service, perSecond: real): (r: Service)
    ensures r.updates.Some? && r.updates.value.perSecond == perSecond
    ensures TimersOk(s) && s.updates.Some? ==> s.updates.value.handle !in r.live
    ensures TimersOk(s) ==> TimersOk(r) && |r.live| == 1 && r.updates.value.handle !in s.live
    ensures Consistent(s) ==> Consistent(r)
    ensures r == s.(updates := r.updates, live := r.live, nextHandle := r.nextHandle)
  {
    var kept := if s.updates.Some? then s.live - {s.updates.value.handle} else s.live;
    s.(updates := Some(Timer(s.nextHandle, perSecond)), live := kept + {s.nextHandle}, nextHandle := s.nextHandle + 1)
  }

  /** `stopUpdates`: clear and drop the held timer, if any. */
  function StopUpdates(s: Service): (r: Service)
    ensures r.updates == None
    ensures TimersOk(s) ==> TimersOk(r) && r.live == {}
    ensures Consistent(s) ==> Consistent(r)
    ensures r == s.(updates := None, live := r.live)
  {
    if s.updates.Some? then s.(updates := None, live := s.live - {s.updates.value.handle}) else s
  }

  lemma StopIdempotent(s: Service)
    ensures StopUpdates(StopUpdates(s)) == StopUpdates(s)
  {
  }

  /** Starting twice leaves one live timer, the second; stopping then leaves none. */
  lemma StartStartStop(s: Service, a: real, b: real)
    requires TimersOk(s)
    ensures var twice := StartUpdates(StartUpdates(s, a), b);
      twice.live == {twice.updates.value.handle} && twice.updates.value.perSecond == b
      && StopUpdates(twice).live == {}
  {
  }

  /** `addSymbol`: an untracked symbol is appended with an opening quote. */
  function AddSymbol(s: Service, symbol: string, draw: real, ts: int): (r: Service)
    requires UnitDraw(draw)
    ensures symbol in r.symbols
    ensures symbol in s.symbols ==> r == s
    ensures symbol !in s.symbols ==>
      r.symbols == s.symbols + [symbol] && symbol in r.quotes && r.quotes[symbol].price == InitialPrice(draw)
      && forall x :: x in s.quotes && x != symbol ==> x in r.quotes && r.quotes[x] == s.quotes[x]
    ensures Consistent(s) ==> Consistent(r) && symbol in r.quotes
    ensures r.subscribers == s.subscribers && r.updates == s.updates && r.live == s.live && r.nextHandle == s.nextHandle
  {
    if symbol in s.symbols then s
    else
      s.(symbols := s.symbols + [symbol],
         quotes := s.quotes[symbol := Quote(symbol, InitialPrice(draw), ts)])
  }

  /** `removeSymbol`: the first occurrence of a tracked symbol goes, with its quote. */
  function RemoveSymbol(s: Service, symbol: string): (r: Service)
    ensures symbol !in r.quotes || symbol !in s.symbols
    ensures symbol !in s.symbols ==> r == s
    ensures forall x :: x in s.quotes && x != symbol ==> x in r.quotes && r.quotes[x] == s.quotes[x]
    ensures Consistent(s) ==>
      (Consistent(r) && symbol !in r.symbols && forall x :: x in r.symbols <==> x in s.symbols && x != symbol)
    ensures var i := Find(s.symbols, symbol);
      i < |s.symbols| ==> r.symbols == s.symbols[..i] + s.symbols[i + 1..]
    ensures r.subscribers == s.subscribers && r.updates == s.updates && r.live == s.live && r.nextHandle == s.nextHandle
  {
    var i := Find(s.symbols, symbol);
    if i < |s.symbols| then
      var rest := s.symbols[..i] + s.symbols[i + 1..];
      SpliceOut(s.symbols, i);
      s.(symbols := rest, quotes := s.quotes - {symbol})
    else s
  }

  /** Cutting position `i` out of a sequence removes exactly that element's occurrences when nothing repeats. */
  lemma SpliceOut<T(!new)>(xs: seq<T>, i: nat)
    requires i < |xs|
    ensures NoDup(xs) ==>
      var rest := xs[..i] + xs[i + 1..];
      NoDup(rest) && Elements(rest) == Elements(xs) - {xs[i]}
  {
    var rest := xs[..i] + xs[i + 1..];
    if NoDup(xs) {
      forall x | x in xs && x != xs[i]
        ensures x in rest
      {
        var j :| 0 <= j < |xs| && xs[j] == x;
        if j < i { assert rest[j] == x; } else { assert rest[j - 1] == x; }
      }
      forall a, b | 0 <= a < b < |rest|
        ensures rest[a] != rest[b]
      {
        var a' := if a < i then a else a + 1;
        var b' := if b < i then b else b + 1;
        assert rest[a] == xs[a'] && rest[b] == xs[b'];
      }
      forall k | 0 <= k < |rest|
        ensures rest[k] != xs[i]
      {
        var k' := if k < i then k else k + 1;
        assert rest[k] == xs[k'];
      }
    }
  }

  lemma AddThenRemove(s: Service, symbol: string, draw: real, ts: int)
    requires Consistent(s) && UnitDraw(draw) && symbol !in s.symbols
    ensures RemoveSymbol(AddSymbol(s, symbol, draw, ts), symbol) == s
  {
    var q := Quote(symbol, InitialPrice(draw), ts);
    var added := AddSymbol(s, symbol, draw, ts);
    assert added == s.(symbols := s.symbols + [symbol], quotes := s.quotes[symbol := q]);
    var n := |s.symbols|;
    assert Find(added.symbols, symbol) == n by {
      assert added.symbols[n] == symbol;
      assert forall j :: 0 <= j < n ==> added.symbols[j] == s.symbols[j];
    }
    assert added.symbols[..n] + added.symbols[n + 1..] == s.symbols;
    assert symbol !in s.quotes;
    assert s.quotes[symbol := q] - {symbol} == s.quotes;
  }
}
