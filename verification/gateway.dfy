/**
 * The WebSocket connection handlers of the backend entry point. A text frame
 * is parsed as JSON, checked against the control-frame schema
 * `{type: "subscribe" | "unsubscribe", symbols: string[]}`, and dispatched
 * to the quote service. Close and error events drop the connection.
 *
 * Parsing text is not modelled: a frame arrives either as the JSON value
 * it parses to, or as `None` when parsing throws.
 */
module Gateway {
  import opened Common
  import QuoteService

  /** A parsed JSON value; an object's keys are distinct, as `JSON.parse` leaves them. */
  datatype Json =
    | JNull
    | JBool(b: bool)
    | JNum(n: real)
    | JStr(s: string)
    | JArr(items: seq<Json>)
    | JObj(fields: map<string, Json>)

  datatype Kind = Sub | Unsub

  /** A control frame that passed the schema. */
  datatype Frame = Frame(kind: Kind, symbols: seq<string>)

  const InvalidFormat: string := "Invalid message format"

  function KindName(k: Kind): string
  {
    match k
    case Sub => "subscribe"
    case Unsub => "unsubscribe"
  }

  /** The `z.enum(['subscribe', 'unsubscribe'])` check. */
  function ParseKind(j: Json): (r: Option<Kind>)
    ensures r.Some? <==> j == JStr("subscribe") || j == JStr("unsubscribe")
    ensures r.Some? ==> j == JStr(KindName(r.value))
  {
    if j == JStr("subscribe") then Some(Sub)
    else if j == JStr("unsubscribe") then Some(Unsub)
    else None
  }

  /** The `z.array(z.string())` check. */
  function ParseStrings(items: seq<Json>): (r: Option<seq<string>>)
    ensures r.Some? <==> forall i :: 0 <= i < |items| ==> items[i].JStr?
    ensures r.Some? ==> |r.value| == |items| && forall i :: 0 <= i < |items| ==> items[i] == JStr(r.value[i])
    decreases |items|
  {
    if |items| == 0 then Some([])
    else
      var n := |items| - 1;
      match ParseStrings(items[..n])
      case None => None
      case Some(prior) =>
        if items[n].JStr? then Some(prior + [items[n].s]) else None
  }

  /**
   * The schema check: an object (not an array, not null) whose `type` is
   * one of the two kinds and whose `symbols` is an array of strings. Other
   * keys are allowed and dropped.
   */
  function Validate(j: Json): (r: Option<Frame>)
    ensures r.Some? <==>
      j.JObj? && "type" in j.fields && "symbols" in j.fields
      && ParseKind(j.fields["type"]).Some?
      && j.fields["symbols"].JArr?
      && forall i :: 0 <= i < |j.fields["symbols"].items| ==> j.fields["symbols"].items[i].JStr?
    ensures r.Some? ==>
      j.fields["type"] == JStr(KindName(r.value.kind))
      && |r.value.symbols| == |j.fields["symbols"].items|
      && forall i :: 0 <= i < |r.value.symbols| ==> j.fields["symbols"].items[i] == JStr(r.value.symbols[i])
  {
    if j.JObj? && "type" in j.fields && "symbols" in j.fields && j.fields["symbols"].JArr? then
      match (ParseKind(j.fields["type"]), ParseStrings(j.fields["symbols"].items))
      case (Some(k), Some(syms)) => Some(Frame(k, syms))
      case _ => None
    else None
  }

  /** The frame as the frontend serialises it. */
  function Encode(f: Frame): (j: Json)
    ensures j.JObj? && j.fields.Keys == {"type", "symbols"}
  {
    JObj(map["type" := JStr(KindName(f.kind)),
             "symbols" := JArr(seq(|f.symbols|, i requires 0 <= i < |f.symbols| => JStr(f.symbols[i])))])
  }

  /** Every frame survives serialising and validating unchanged. */
  lemma ValidateEncode(f: Frame)
    ensures Validate(Encode(f)) == Some(f)
  {
    var r := Validate(Encode(f));
    assert r.Some?;
    assert r.value.symbols == f.symbols;
    assert r.value.kind == f.kind by {
      assert JStr(KindName(r.value.kind)) == JStr(KindName(f.kind));
    }
  }

  /** Keys other than `type` and `symbols` do not affect validation. */
  lemma ValidateIgnoresExtraKeys(fields: map<string, Json>, key: string, value: Json)
    requires key != "type" && key != "symbols"
    ensures Validate(JObj(fields[key := value])) == Validate(JObj(fields))
  {
    var wide := fields[key := value];
    assert ("type" in wide <==> "type" in fields) && ("symbols" in wide <==> "symbols" in fields);
    if "type" in fields && "symbols" in fields {
      assert wide["type"] == fields["type"] && wide["symbols"] == fields["symbols"];
    }
  }

  /**
   * The `message` handler. A frame that fails parsing or validation gets
   * the error reply and leaves the service alone; a subscribe frame is
   * handed to `subscribe`; an unsubscribe frame drops the connection.
   */
  function OnMessage(s: QuoteService.Service, conn: QuoteService.ClientId, frame: Option<Json>): (r: QuoteService.Step)
    ensures var f := if frame.Some? then Validate(frame.value) else None;
      (f.None? ==>
         r.service == s
         && r.outbox == [QuoteService.Message(conn, QuoteService.ErrorReply(InvalidFormat))])
      && (f.Some? && f.value.kind == Sub ==> r == QuoteService.Subscribe(s, conn, f.value.symbols))
      && (f.Some? && f.value.kind == Unsub ==>
            r.service == QuoteService.Unsubscribe(s, conn) && r.outbox == [])
    ensures QuoteService.Consistent(s) ==> QuoteService.Consistent(r.service)
  {
    var f := if frame.Some? then Validate(frame.value) else None;
    match f
    case None => QuoteService.Step(s, [QuoteService.Message(conn, QuoteService.ErrorReply(InvalidFormat))])
    case Some(Frame(Sub, symbols)) => QuoteService.Subscribe(s, conn, symbols)
    case Some(Frame(Unsub, _)) => QuoteService.Step(QuoteService.Unsubscribe(s, conn), [])
  }

  /** A valid subscribe frame leaves the connection subscribed. */
  lemma SubscribeFrameSubscribes(s: QuoteService.Service, conn: QuoteService.ClientId, symbols: seq<string>)
    ensures conn in OnMessage(s, conn, Some(Encode(Frame(Sub, symbols)))).service.subscribers
  {
    ValidateEncode(Frame(Sub, symbols));
  }

  /** An unsubscribe frame drops the connection, whichever symbols it lists. */
  lemma UnsubscribeIgnoresSymbols(s: QuoteService.Service, conn: QuoteService.ClientId, a: seq<string>, b: seq<string>)
    ensures OnMessage(s, conn, Some(Encode(Frame(Unsub, a)))) == OnMessage(s, conn, Some(Encode(Frame(Unsub, b))))
    ensures conn !in OnMessage(s, conn, Some(Encode(Frame(Unsub, a)))).service.subscribers
  {
    ValidateEncode(Frame(Unsub, a));
    ValidateEncode(Frame(Unsub, b));
  }

  /**
   * The `close` and `error` handlers, which do the same thing: drop the
   * connection from the quote service.
   */
  function OnDisconnect(s: QuoteService.Service, conn: QuoteService.ClientId): (r: QuoteService.Service)
    ensures conn !in r.subscribers
    ensures forall c :: c != conn ==> (c in r.subscribers <==> c in s.subscribers)
    ensures QuoteService.Consistent(s) ==> QuoteService.Consistent(r)
  {
    QuoteService.Unsubscribe(s, conn)
  }

  /** A socket that errors and then closes is removed once; the second removal changes nothing. */
  lemma ErrorThenClose(s: QuoteService.Service, conn: QuoteService.ClientId)
    ensures OnDisconnect(OnDisconnect(s, conn), conn) == OnDisconnect(s, conn)
  {
    QuoteService.UnsubscribeIdempotent(s, conn);
  }
}
