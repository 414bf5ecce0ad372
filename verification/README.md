# Real-time dashboard backend and client core, in Dafny

This project models the in-memory logic of a dashboard application, in five parts:

- **`DataService`**: the user listing service. It seeds users, products and orders, and pre-computes a per-user order aggregation (count and total). It answers `getUsers` by a case-insensitive substring search, a keyed sort with a direction, and a page slice. It answers `getUserOrders` by a filter and a page slice, and `getProducts` by a copy.
- **`TreeService`**: the tree hierarchy service. It generates a capped tree breadth first. It keeps a node table in insertion order, a children index and a parent index. It answers root, child, single-node, name-search and root-to-node path queries.
- **`QuoteService`**: the live quote service. It holds the tracked symbols, one quote per symbol and the set of subscribed connections. It also holds the repeating update timer, the price step, and the broadcast that prunes dead connections after the pass.
- **`Gateway`**: the WebSocket `message`, `close` and `error` handlers of the backend entry point. They validate a control frame against `{type: "subscribe" | "unsubscribe", symbols: string[]}` and dispatch it to the quote service.
- **`WebSocketClient`**: the browser-side client. It covers:
  - the connect guard;
  - the reconnect counter with its exponential delay;
  - the send guards of subscribe and unsubscribe;
  - the listener set and its notification loop;
  - disconnect.

Two further modules hold shared vocabulary. `Common` holds `Option`, min/max, powers, `indexOf` and duplicate-freedom. `Text` holds the decimal rendering inside template literals, ASCII `toLowerCase`, `includes`, and JavaScript's string `<`.

Every service is a value. Operations are pure functions from a state (plus their arguments) to a new state and, for the quote side, an outbox of messages sent. Tree generation is the exception: it is a set of methods with loop invariants, because it follows the three nested loops of the generator.

Some things are parameters rather than computed:
- `Math.random()` draws (each a real in [0, 1));
- timestamps;
- the state of a socket at broadcast time;
- whether a listener or a `WebSocket` constructor throws.

Where the design description of the system and the code differ, the model follows the code:
- Every subscriber receives every quote; there is no per-symbol registry or reverse index.
- Unsubscribe drops the whole connection.
- A subscribe pushes the current quote of every requested tracked symbol, repeats included, not only newly added ones.
- The client's backoff delay is `1000 * 2^attempts` with no cap.
- The client has no terminal failed state. After five scheduled reconnects it simply schedules no more.
- The client does not replay subscriptions after a reconnect, and `disconnect` does not cancel a pending reconnect timer.

The tree queries are stated for trees satisfying `TreeService.Valid`:
- ids are distinct and non-empty;
- the parent index agrees with each node's `parentId`;
- every parent sits earlier in the table than its child;
- the children index lists exactly the children of each node, in creation order.

`SeedTree` establishes this. Because a parent always sits earlier in the table, the path walk of `getNodePath` terminates.

## Model

| member | source | states |
|---|---|---|
| DataService.SeedData | backend/src/services/DataService.ts:17-66 | The store is rebuilt from the arguments alone and the returned counts equal the requested counts. User i has id i, name "User i" and email "user{i}@example.com". Product i has id i, name "Product i" and a price in [10, 1010). Order i has id i, a userId in 1..users, a productId in 1..products and an amount in [1, 1001). The aggregation map agrees with the orders. |
| DataService.PickId | backend/src/services/DataService.ts:45-46 | `Math.floor(r * n) + 1` lies in 1..n for every draw r in [0, 1), and is 1 when n is 0. |
| DataService.SeededProducts | backend/src/services/DataService.ts:166-168 | After seeding, `getProducts` returns as many products as requested, in strictly increasing id order. |
| DataService.OrdersOfCounts | backend/src/services/DataService.ts:151 | The user filter keeps every order of that user as often as it is stored, and no other order. |
| DataService.OrdersOfAppend | backend/src/services/DataService.ts:151 | Filtering distributes over concatenation, so the kept orders stay in stored order. |
| DataService.AggregationIsPerUserSum | backend/src/services/DataService.ts:68-78 | The aggregate of user u has count equal to the number of orders with userId u and total equal to the sum of their amounts. A user without orders gets {0, 0}. |
| DataService.FilterUsers | backend/src/services/DataService.ts:86-89 | The filter keeps exactly the users whose lower-cased name or email contains the lower-cased search, each with its multiplicity. |
| DataService.SearchUsers | backend/src/services/DataService.ts:84-90 | An absent or empty search keeps the list unchanged. Otherwise exactly the matching users remain. |
| Text.StrLtAsymmetric | backend/src/services/DataService.ts:120-122 | JavaScript's `<` on strings never holds both ways. |
| Text.StrLtTotal | backend/src/services/DataService.ts:120-122 | Of two different strings, one is `<` the other. |
| Text.StrLtTransitive | backend/src/services/DataService.ts:120-122 | JavaScript's `<` on strings is transitive, so the name and email comparators are consistent. |
| DataService.Insert | backend/src/services/DataService.ts:93-124 | Inserting a user into a sorted list adds exactly that user and keeps the list sorted under the comparator. |
| DataService.SortUsers | backend/src/services/DataService.ts:93-124 | The sorted list is a permutation of the filtered list. No user is placed after one the comparator puts strictly before it, for the chosen key ascending, or descending when sortDir is desc. |
| DataService.Slice | backend/src/services/DataService.ts:130 | `slice(start, end)` with a non-negative start takes the elements from start up to the clamped end. |
| DataService.PageStart | backend/src/services/DataService.ts:128 | The start index of a page is non-negative from page 1 on. For page 0 it is minus one page, which makes the slice empty. |
| DataService.PageStartProduct | backend/src/services/DataService.ts:128 | The start index of page p is exactly (p-1) times the page size. |
| DataService.Page | backend/src/services/DataService.ts:127-130 | Page p of size n holds min(n, max(0, total - (p-1)n)) items, namely the elements from (p-1)n on, in order. |
| DataService.SortedPage | backend/src/services/DataService.ts:127-130 | A page of a sorted list is sorted. |
| DataService.ListingPage | backend/src/services/DataService.ts:80-130 | Every user on a listing page is a stored user matching the search, and the page is in comparator order. |
| DataService.GetUsers | backend/src/services/DataService.ts:80-148 | `getUsers` echoes page and pageSize. Total is the number of matching users, and the items are the requested page of the sorted, filtered list, of the length the page formula gives. Each row carries its user's aggregate. |
| DataService.GetUserOrders | backend/src/services/DataService.ts:150-164 | `getUserOrders` returns only orders of the requested user, in stored order, one page of them, with total equal to that user's order count. |
| DataService.AggregationsAgree | backend/src/services/DataService.ts:68-78 | For every user id at once, the aggregation map holds that user's order count and order total. |
| DataService.UserOrdersMatchAggregate | backend/src/services/DataService.ts:150-153 | The order listing's total equals the count in the pre-computed aggregation. |
| Text.NatStrInjective | backend/src/services/TreeService.ts:28 | Different counters render to different decimal strings. |
| TreeService.NodeIdInjective | backend/src/services/TreeService.ts:28 | Generated ids `node_k` are distinct for distinct k. |
| TreeService.GetNode | backend/src/services/TreeService.ts:144-146 | `getNode` finds a node exactly when the table holds one with that id, and returns that node. |
| TreeService.GetRootNodes | backend/src/services/TreeService.ts:83-91 | `getRootNodes` returns exactly the nodes whose parentId is null. |
| TreeService.RootsMembers | backend/src/services/TreeService.ts:83-91 | The filter behind `getRootNodes` keeps a node exactly when it has no parent: no root is missed and no child slips in. |
| TreeService.RootsArePrefix | backend/src/services/TreeService.ts:83-91 | When exactly the first k nodes are parentless, `getRootNodes` returns exactly those k nodes, in order. |
| TreeService.GetNodeChildren | backend/src/services/TreeService.ts:93-105 | `getNodeChildren` returns only nodes listed in the children index entry, and nothing for an id without an entry. |
| TreeService.ChildrenQuery | backend/src/services/TreeService.ts:93-105 | In a valid tree `getNodeChildren` returns exactly the nodes whose parent is the id, in creation order. A leaf or an unknown id gets the empty list. |
| TreeService.NodePath | backend/src/services/TreeService.ts:129-142 | The path is non-empty exactly when the id is non-empty and names a node. It ends at that node, starts at a node without a parent, and each entry is the parent of the next. Every entry carries the id and the name of a node of the table. |
| TreeService.ParentLink | backend/src/services/TreeService.ts:129-142 | In a valid tree a node's parent is a real id that sits strictly earlier in the table, so each step of the path walk moves towards the front and the walk ends. |
| TreeService.PathExtend | backend/src/services/TreeService.ts:133-139 | Prepending the path of a node's parent to the node's own entry gives a root-to-node path for the node, with every entry still named after its node. |
| TreeService.SearchHits | backend/src/services/TreeService.ts:111-119 | Every hit's name contains the lower-cased query case-insensitively, and its path is the node's root path. |
| TreeService.EarlyStop | backend/src/services/TreeService.ts:114-122 | Breaking right after the hit that brings the count to the limit leaves exactly the first max(1, limit) hits of the whole table. |
| TreeService.SearchNodes | backend/src/services/TreeService.ts:107-127 | `searchNodes` returns the first max(1, limit) hits in table order, or all hits if fewer. Each hit matches and carries its path. |
| TreeService.SeedRoots | backend/src/services/TreeService.ts:26-37 | The root loop creates min(breadth, cap) parentless roots `node_1`, `node_2`, … named "Root Node i", all flagged hasChildren. |
| TreeService.AddChildren | backend/src/services/TreeService.ts:50-65 | One parent receives exactly min(count, room left under the cap) children, never fewer than zero. They get the next consecutive ids, the parent index records the parent, and the generator invariant is kept. |
| TreeService.ExpandParent | backend/src/services/TreeService.ts:46-73 | Each parent receives exactly min(breadth, maxNodes - nodeId + 1) children. Handling it keeps the generator invariant, and the children index then lists exactly each node's children. |
| TreeService.CloseParent | backend/src/services/TreeService.ts:67-73 | A parent that received children gets exactly those in its index entry, with the table untouched. One that received none keeps the index and has its flag cleared. Neither case changes the ids, parents or names. |
| TreeService.CloseParentKeepsCore | backend/src/services/TreeService.ts:67-73 | Either way of closing a parent keeps the generator invariant, and the children index still lists exactly each node's children. |
| TreeService.ExpandLevel | backend/src/services/TreeService.ts:44-77 | A level pass hands out consecutive ids. The next level is exactly the ids created during the pass, and there are min(breadth × level size, room left under the cap) of them. |
| TreeService.GrowLevels | backend/src/services/TreeService.ts:43-78 | The level loop keeps the generator invariant. For breadth at least 1 it stops with exactly cap nodes, and with depth at most 1 it changes nothing. |
| TreeService.LevelStep | backend/src/services/TreeService.ts:43-78 | Expanding a full level of breadth^d parents either fills level d + 1, of breadth^(d+1) nodes, or reaches the cap. |
| TreeService.LevelsReachCap | backend/src/services/TreeService.ts:43 | Once the loop has reached the requested depth, the full levels hold at least the cap, so a loop stopped by the depth test has already stopped at the cap. |
| TreeService.CoreValid | backend/src/services/TreeService.ts:54-64 | The generator invariant implies a valid tree: distinct ids, a consistent parent index, and every parent earlier than its child. |
| TreeService.SeedTreeAsWritten | backend/src/services/TreeService.ts:16-81 | Generation yields a valid tree of exactly cap = min(breadth^depth, 10000) nodes when breadth is at least 1 (none when it is 0). Ids are `node_1`… in order and the first min(breadth, cap) nodes are the named roots. With depth 1 every root is flagged hasChildren although none has a child. |
| TreeService.MarkedFlags | backend/src/services/TreeService.ts:67-73 | Setting each flag from the children index keeps the tree valid. Afterwards a node is flagged exactly when `getNodeChildren` returns something for it. |
| TreeService.SeedTree | backend/src/services/TreeService.ts:16-81 | The corrected generator yields a valid generated tree whose reported count is its size, which is exactly cap = min(breadth^depth, 10000) when breadth is at least 1. `getRootNodes` returns its first min(breadth, cap) nodes, and hasChildren holds exactly for nodes with children. |
| QuoteService.QuotesFor | backend/src/services/QuoteService.ts:14-23 | Initialisation files one quote per symbol under that symbol, each priced from its own draw. |
| QuoteService.Initialize | backend/src/services/QuoteService.ts:8-23 | A new service tracks the ten default symbols, and each opening price lies in [50, 1050] dollars. It has no subscriber and no timer, and the invariant holds: symbols distinct, quote keys equal the symbols, prices positive. |
| QuoteService.InitialPrice | backend/src/services/QuoteService.ts:19 | An opening price `Math.random() * 1000 + 50` is between 5000 and 105000 cents. |
| QuoteService.GetSnapshot | backend/src/services/QuoteService.ts:25-36 | The snapshot maps exactly the requested symbols that are tracked to their current quotes, and drops unknown ones. |
| QuoteService.Known | backend/src/services/QuoteService.ts:42-47 | The symbols subscribe pushes are the requested symbols that have a quote, each as often as it was requested. |
| QuoteService.Subscribe | backend/src/services/QuoteService.ts:38-48 | The client joins the subscriber set and nothing else in the state changes. The client is sent the current quote of each requested tracked symbol, in request order. |
| QuoteService.SubscribeSendsSnapshot | backend/src/services/QuoteService.ts:25-48 | The quotes `subscribe` sends are exactly the entries of the snapshot for the requested symbols. |
| QuoteService.Without | backend/src/services/QuoteService.ts:51 | Deleting from the subscriber set keeps every other client, in order, and keeps the set duplicate-free. |
| QuoteService.Unsubscribe | backend/src/services/QuoteService.ts:50-52 | `unsubscribe` removes the client and keeps every other subscriber and the rest of the state. |
| QuoteService.UnsubscribeAbsent | backend/src/services/QuoteService.ts:50-52 | Removing a client that is not subscribed changes nothing. |
| QuoteService.UnsubscribeIdempotent | backend/src/services/QuoteService.ts:50-52 | A repeated `unsubscribe` is a no-op. |
| QuoteService.SubscribeThenUnsubscribe | backend/src/services/QuoteService.ts:38-52 | Unsubscribing undoes subscribing, whatever symbols were requested. |
| QuoteService.RoundHalfUp | backend/src/services/QuoteService.ts:86 | `Math.round` returns the integer within half a unit of its argument, halves rounded up. |
| QuoteService.PriceStep | backend/src/services/QuoteService.ts:79-86 | A stepped price is never below one cent. |
| QuoteService.PriceStepBounded | backend/src/services/QuoteService.ts:79-86 | A step moves a positive price by at most 1%, up to half a cent of rounding, with the one-cent floor as the only exception. |
| QuoteService.UpdateAll | backend/src/services/QuoteService.ts:72-92 | The update loop keeps the key set, reports at most one quote per symbol, and keeps every quote filed under its own symbol with a positive price. |
| QuoteService.UpdateAllSteps | backend/src/services/QuoteService.ts:72-92 | With distinct, all-quoted symbols, the loop steps each price once from its old value. It stores and reports the new quotes in symbol order and leaves other quotes alone. |
| QuoteService.UpdateQuotes | backend/src/services/QuoteService.ts:72-96 | An update keeps the symbols and quote keys and preserves the service invariant. The subscribers left are those not marked dead by the broadcast. |
| QuoteService.UpdateQuotesBroadcasts | backend/src/services/QuoteService.ts:72-106 | On a consistent service every price is stepped once. Every subscriber whose socket is open receives all the new quotes, one message each in symbol order, whatever symbols it requested. |
| QuoteService.Sent | backend/src/services/QuoteService.ts:101-113 | What a socket takes during a broadcast is a prefix of the quote list: all of it when open, nothing when not open, the quotes before the failing send otherwise. |
| QuoteService.Fanout | backend/src/services/QuoteService.ts:98-114 | The broadcast pass marks dead exactly the subscribers that were not open or whose send threw. Every message goes to a subscriber and carries one of the quotes. |
| QuoteService.FanoutInbox | backend/src/services/QuoteService.ts:101-114 | Each subscriber's share of the pass is exactly the quotes its socket took, in order. Non-subscribers get nothing. |
| QuoteService.RemoveEach | backend/src/services/QuoteService.ts:116-119 | The removal loop leaves exactly the subscribers not in the dead list. |
| QuoteService.RemoveEachKeepsOrder | backend/src/services/QuoteService.ts:116-119 | Deleting the dead one by one leaves the survivors in their original order. |
| QuoteService.Broadcast | backend/src/services/QuoteService.ts:98-120 | After a broadcast, the subscribers are the old ones minus the dead, in order. Dead clients are removed only after the pass, so every subscriber was visited. Nothing else changes and the invariant is kept. |
| QuoteService.BroadcastInbox | backend/src/services/QuoteService.ts:98-120 | Every subscriber with an open socket is sent every quote of the broadcast in order. Other subscribers are sent what their socket took, and non-subscribers nothing. |
| QuoteService.StartUpdates | backend/src/services/QuoteService.ts:54-63 | Starting clears the old timer and leaves exactly one live timer, a new one. |
| QuoteService.StopUpdates | backend/src/services/QuoteService.ts:65-70 | Stopping clears the held timer and leaves none live. |
| QuoteService.StopIdempotent | backend/src/services/QuoteService.ts:65-70 | Stopping twice is the same as stopping once. |
| QuoteService.StartStartStop | backend/src/services/QuoteService.ts:54-70 | Starting twice leaves only the second timer live, at the second rate. A stop then leaves no timer live. |
| QuoteService.AddSymbol | backend/src/services/QuoteService.ts:126-135 | Adding a tracked symbol changes nothing. An untracked one is appended with an opening quote, other quotes are untouched, and the invariant is kept. The subscribers, the timer and the handle counter never change. |
| QuoteService.RemoveSymbol | backend/src/services/QuoteService.ts:137-143 | Removing an untracked symbol changes nothing. A tracked one loses its quote and its first occurrence is cut out, so the other symbols keep their order, which is the update and broadcast order. The other symbols keep their quotes, the invariant is kept, and the subscribers, the timer and the handle counter never change. |
| QuoteService.AddThenRemove | backend/src/services/QuoteService.ts:126-143 | Removing a symbol just added restores the service exactly. |
| Gateway.ParseKind | backend/src/index.ts:65 | The type check accepts exactly the strings "subscribe" and "unsubscribe". |
| Gateway.ParseStrings | backend/src/index.ts:66 | The symbols check accepts exactly the arrays whose every element is a string, and returns those strings in order. |
| Gateway.Validate | backend/src/index.ts:64-69 | A frame validates exactly when it is an object whose `type` is one of the two kinds and whose `symbols` is an array of strings. The frame returned carries those values. |
| Gateway.ValidateEncode | backend/src/index.ts:64-69 | Every control frame validates back to itself after serialising. |
| Gateway.ValidateIgnoresExtraKeys | backend/src/index.ts:64-69 | Keys other than `type` and `symbols` do not affect validation. |
| Gateway.OnMessage | backend/src/index.ts:59-80 | A frame that fails parsing or validation gets the reply "Invalid message format" and leaves the service unchanged. A subscribe frame becomes `subscribe` with its symbols, and an unsubscribe frame removes the connection. The invariant is kept. |
| Gateway.SubscribeFrameSubscribes | backend/src/index.ts:71-72 | After a valid subscribe frame the connection is a subscriber. |
| Gateway.UnsubscribeIgnoresSymbols | backend/src/index.ts:73-74 | An unsubscribe frame removes the connection entirely, and the result does not depend on the symbols it lists. |
| Gateway.OnDisconnect | backend/src/index.ts:82-90 | A close or a transport error removes the connection and keeps every other subscriber, and the service stays consistent. |
| Gateway.ErrorThenClose | backend/src/index.ts:82-90 | A close after an error is a harmless repeated removal. |
| WebSocketClient.Connect | frontend/src/services/websocket.ts:13-65 | While an attempt is in flight or the socket is open, `connect` resolves and changes nothing. Otherwise it starts a connecting socket, or rejects and clears the flag when the constructor throws. |
| WebSocketClient.ConnectInFlight | frontend/src/services/websocket.ts:15-18 | A second `connect` during an attempt starts no second socket. |
| WebSocketClient.Opened | frontend/src/services/websocket.ts:25-30 | A successful open resets the attempt counter and sends nothing. |
| WebSocketClient.ScheduleReconnect | frontend/src/services/websocket.ts:79-90 | Scheduling waits 1000 * 2^attempts ms, then increments the counter. |
| WebSocketClient.Closed | frontend/src/services/websocket.ts:41-49 | A close drops the socket. A reconnect is scheduled exactly on an unclean close while fewer than five have been scheduled. |
| WebSocketClient.Errored | frontend/src/services/websocket.ts:51-55 | An error ends the attempt and changes nothing else. |
| WebSocketClient.Subscribe | frontend/src/services/websocket.ts:92-105 | A subscribe frame is sent only on an open socket; otherwise nothing changes. |
| WebSocketClient.Unsubscribe | frontend/src/services/websocket.ts:107-120 | An unsubscribe frame is sent only on an open socket; otherwise nothing changes. |
| WebSocketClient.AddListener | frontend/src/services/websocket.ts:122-124 | Adding a listener adds it to the set and keeps the set duplicate-free. |
| WebSocketClient.RemoveListener | frontend/src/services/websocket.ts:126-128 | Removing a listener removes exactly that listener. |
| WebSocketClient.Notify | frontend/src/services/websocket.ts:130-138 | Every listener is invoked once, in set order, whether or not it or an earlier one throws. |
| WebSocketClient.NotifyReachesAll | frontend/src/services/websocket.ts:130-138 | Each listener in the set hears the quote, including those after a throwing one. |
| WebSocketClient.Received | frontend/src/services/websocket.ts:32-39 | An unparsable message notifies nobody. A parsed one, whether a quote push or the server's error reply, notifies every listener in order. |
| WebSocketClient.Disconnect | frontend/src/services/websocket.ts:140-146 | `disconnect` closes a held socket with code 1000 and reason "Client disconnect", drops it, and clears all listeners. The reconnect counter is left alone. |
| WebSocketClient.Apply | frontend/src/services/websocket.ts:25-55 | Only an open resets the counter. Only an unclean close below the limit changes it, and only subscribe or unsubscribe on an open socket sends anything. |
| WebSocketClient.ApplyBackoff | frontend/src/services/websocket.ts:41-48 | An event other than an open schedules at most the next reconnect, with delay 1000 * 2^attempts. |
| WebSocketClient.AttemptsBounded | frontend/src/services/websocket.ts:46-48 | The attempt counter never exceeds five, whatever events occur. |
| WebSocketClient.BackoffWithoutOpen | frontend/src/services/websocket.ts:79-81 | Between successful opens the scheduled delays continue the sequence 1000 * 2^n from the current count, and at most five reconnects are scheduled in a row. |
| WebSocketClient.NeverOpened | frontend/src/services/websocket.ts:46-48 | A client that never opens schedules at most five reconnects, 1, 2, 4, 8 and 16 seconds out, with no cap applied and none after the fifth. |
| WebSocketClient.RunSendsValidFrames | frontend/src/services/websocket.ts:98-118 | Every frame the client sends passes the server's control-frame validation. |
| WebSocketClient.NoQueueing | frontend/src/services/websocket.ts:92-120 | Requests made while the socket is not open send nothing. An open that follows sends nothing either, so nothing is queued or replayed. |

## Left out

- Sockets, timers and logging are not executed. A send is an append to an outbox or log. A `setInterval` or `setTimeout` is a recorded handle or delay. Ping heartbeats (both sides) and console output are not modelled.
- `Math.random()` and `Date` are parameters: draws in [0, 1) and integer timestamps. ISO timestamp strings and their parsing back to times are not modelled; `createdAt` is an integer.
- IEEE double arithmetic is not modelled. Data-service prices and amounts are exact reals. Quote prices are whole cents.
- QuoteService.InitialPrice: the opening price `Math.random() * 1000 + 50` is rounded to a whole cent, whereas the source keeps the fractional dollar value until the first step rounds it.
- QuoteService.StartUpdates: the interval period `1000 / updatesPerSecond` and the tick cadence are not modelled. Only which timer is live is modelled.
- QuoteService.UpdateQuotes: the draws are one per tracked symbol; the source draws only for symbols with a quote, which is every symbol whenever the invariant holds.
- QuoteService.Subscribe: sends during `subscribe` always succeed. In the source a throwing send would abort the loop and, through the gateway's catch, draw an error reply.
- JSON text is not modelled. A frame arrives as the value `JSON.parse` would produce, or as `None` when parsing throws. Serialising a quote to text is not modelled either.
- WebSocketClient.Apply: events are always those of the current socket. The source also runs the `onclose` of an earlier, replaced socket, which would drop the newer one. The promise of `connect` is tracked only for its immediate outcome.
- WebSocketClient.BackoffWithoutOpen: a reconnect timer firing is an ordinary `connect` event. Nothing ties the firing to the recorded delay, and `disconnect` leaves already scheduled timers in place, as in the source.
- `toLowerCase` is modelled on ASCII letters only.
- Text.StrLt: strings are sequences of Unicode code points and are compared code point by code point. JavaScript's `<` compares UTF-16 code units, so the two orders differ when a character above U+FFFF is compared with one in U+E000..U+FFFF: JavaScript puts `"\u{1F600}" < "\uFF00"`, the model the other way round. The sort of `getUsers` inherits this; the seeded names and emails are ASCII.
- QuoteService.UpdateAll: one timestamp stamps every quote of a pass, while the source calls `new Date()` once per quote (QuoteService.ts:87), so quotes of one pass may differ by a millisecond there.
- QuoteService.QuotesFor: one timestamp for every opening quote, where the source calls `new Date()` once per symbol (QuoteService.ts:20).
- DataService.SortUsers: the sort is the stable insertion sort modern engines give `Array.prototype.sort`, but stability is not stated as a contract. The contract states permutation and order only.
- DataService.GetUsers: page and pageSize are naturals. The routes only ever pass page ≥ 1 and pageSize in 1..200, and non-integer values are not modelled. For page 0 the slice is empty, as in the source.
- TreeService queries take the tree as an argument and require `Valid`. On a corrupted table `getNodePath` could loop forever; that case is not modelled.
- TreeService.SeedTreeAsWritten: the contract proves the stray hasChildren flag only for depth 1 (see Findings). The capped case is described, but no contract proves it.
- QuoteService.Initialize: `getSymbols` (a copy of the symbol list) has no separate member; the symbol list is the `symbols` field.
- The HTTP routes, middleware, rate limiting and the duplicate service instances are not part of this model. The routes' bounds appear only where they matter for a contract.

## Findings

| source | as written | input that shows it | evidently intended | confidence | as-written member | corrected member |
|---|---|---|---|---|---|---|
| backend/src/services/TreeService.ts:33 | Roots are created with `hasChildren: true`. A flag is cleared only when the level loop visits a parent that receives no child, and nodes of the level where the loop stops are never visited. | `seedTree(2, 1)`: two roots, both flagged `hasChildren`, and `getNodeChildren` of each returns `[]`. The same happens to the last generated level when the 10000-node cap stops the loop, e.g. `seedTree(20, 10)`. | A node is flagged `hasChildren` exactly when `getNodeChildren` returns something for it. | not executed | TreeService.SeedTreeAsWritten | TreeService.SeedTree |
