/** The two webhook handlers: the subscription check on GET and the
    processing of an inbound event on POST, with the outgoing sends. */
module Webhook {
  import opened Wrappers
  import opened Text
  import opened Classifier
  import opened QueryBuilder
  import opened SearchClient
  import opened Formatter

  /** An HTTP response: a body (`None` when the handler returns no text) and a status. */
  datatype Response = Response(body: Option<string>, status: nat)

  const Forbidden: Response := Response(Some("forbidden"), 403)

  /** `verify`: the query parameters `hub.mode`, `hub.verify_token` and
      `hub.challenge` (each `None` when absent) against the configured token. */
  function Verify(mode: Option<string>, token: Option<string>, challenge: Option<string>,
                  verifyToken: string): (r: Response)
    ensures r.status == 200 <==> mode == Some("subscribe") && token == Some(verifyToken)
    ensures r.status == 200 ==> r.body == challenge
    ensures r.status != 200 ==> r == Response(Some("forbidden"), 403)
  {
    if mode == Some("subscribe") && token == Some(verifyToken) then Response(challenge, 200)
    else Forbidden
  }

  /** With no token configured, a request carrying an empty token passes
      while one without the parameter does not. */
  lemma EmptyConfiguredToken(challenge: string)
    ensures Verify(Some("subscribe"), Some(""), Some(challenge), "") == Response(Some(challenge), 200)
    ensures Verify(Some("subscribe"), None, Some(challenge), "") == Forbidden
  {
  }

  // The inbound event, `{entry: [{changes: [{value: {messages: [...]}}]}]}`;
  // every key may be absent.
  datatype TextField = TextField(body: Option<string>)
  datatype Message = Message(from: Option<string>, kind: Option<string>, text: Option<TextField>)
  datatype Value = Value(messages: Option<seq<Message>>)
  datatype Change = Change(value: Option<Value>)
  datatype Entry = Entry(changes: Option<seq<Change>>)
  datatype Payload = Payload(entry: Option<seq<Entry>>)

  /** A sender and the stripped text of one of its text messages. */
  type Inbound = (Option<string>, string)

  /** `(msg.get("text") or {}).get("body", "")`. */
  function BodyOf(m: Message): string {
    match m.text
    case None => ""
    case Some(t) => t.body.GetOr("")
  }

  function EntriesOf(data: Option<Payload>): seq<Entry> {
    match data
    case None => []
    case Some(p) => p.entry.GetOr([])
  }

  function ChangesOf(e: Entry): seq<Change> {
    e.changes.GetOr([])
  }

  /** `change.get("value", {}).get("messages", [])`. */
  function MessagesOf(c: Change): seq<Message> {
    match c.value
    case None => []
    case Some(v) => v.messages.GetOr([])
  }

  /** A message contributes its sender and stripped body when its type is "text". */
  function MessageTexts(m: Message): seq<Inbound> {
    if m.kind == Some("text") then [(m.from, Strip(BodyOf(m)))] else []
  }

  function ChangeTexts(c: Change): seq<Inbound> {
    FlatMap(MessageTexts, MessagesOf(c))
  }

  function EntryTexts(e: Entry): seq<Inbound> {
    FlatMap(ChangeTexts, ChangesOf(e))
  }

  /** Every text message of the event, in payload order. */
  function TextMessages(data: Option<Payload>): seq<Inbound> {
    FlatMap(EntryTexts, EntriesOf(data))
  }

  /** A message handed to the platform's send API. */
  datatype Outbound = Outbound(to: string, body: string)

  /** `send_whatsapp`: nothing is sent when the recipient or the text is empty. */
  function SendWhatsapp(to: Option<string>, text: string): (out: seq<Outbound>)
    ensures out == [] <==> to.None? || to.value == "" || text == ""
    ensures out != [] ==> out == [Outbound(to.value, text)]
  {
    if to.None? || to.value == "" || text == "" then [] else [Outbound(to.value, text)]
  }

  /** The search endpoint as seen by `call_cse`: the decoded response for a
      query, or `None` when the request or the decoding failed. */
  type Search = string -> Option<SearchResponse>

  const Prompt: string := "Pídeme el precio: por ejemplo, 'precio mochila conejo jellycat'"
  const TopN: int := 3

  /** The reply to a text: search results for a price question, the prompt otherwise. */
  function ReplyText(body: string, search: Search): string {
    if IsPriceQuery(body) then
      var q := BuildQuery(body);
      Reply(q, TopResults(search(q), TopN))
    else Prompt
  }

  /** The sends for a sequence of text messages, in order. */
  function Answers(texts: seq<Inbound>, search: Search): seq<Outbound> {
    if texts == [] then []
    else SendWhatsapp(texts[0].0, ReplyText(texts[0].1, search)) + Answers(texts[1..], search)
  }

  lemma {:induction false} AnswersAppend(a: seq<Inbound>, b: seq<Inbound>, search: Search)
    ensures Answers(a + b, search) == Answers(a, search) + Answers(b, search)
    decreases |a|
  {
    if a == [] {
      assert a + b == b;
    } else {
      assert (a + b)[1..] == a[1..] + b;
      AnswersAppend(a[1..], b, search);
    }
  }

  /** Every reply text is non-empty, so only a missing or empty sender suppresses a send. */
  lemma ReplyTextNonEmpty(body: string, search: Search)
    ensures ReplyText(body, search) != ""
  {
    if IsPriceQuery(body) {
      var q := BuildQuery(body);
      var items := TopResults(search(q), TopN);
      assert items == [] ==> |Reply(q, items)| >= |NotFoundPrefix|;
      assert items != [] ==> |Reply(q, items)| >= |HeaderPrefix|;
    }
  }

  /** One send per text message whose sender is present and non-empty, at
      most one per text message, in payload order. */
  lemma {:induction false} AnswersFollowMessages(texts: seq<Inbound>, search: Search)
    ensures |Answers(texts, search)| <= |texts|
    ensures (forall k :: 0 <= k < |texts| ==> texts[k].0.Some? && texts[k].0.value != "") ==>
              |Answers(texts, search)| == |texts| &&
              forall k :: 0 <= k < |texts| ==>
                Answers(texts, search)[k] == Outbound(texts[k].0.value, ReplyText(texts[k].1, search))
  {
    if texts != [] {
      AnswersFollowMessages(texts[1..], search);
      ReplyTextNonEmpty(texts[0].1, search);
      if forall k :: 0 <= k < |texts| ==> texts[k].0.Some? && texts[k].0.value != "" {
        assert forall k :: 1 <= k < |texts| ==> texts[1..][k - 1] == texts[k];
      }
    }
  }

  /** An event holding a single text message. */
  function SingleTextEvent(from: string, body: string): Option<Payload> {
    Some(Payload(Some([Entry(Some([Change(Some(Value(Some([
      Message(Some(from), Some("text"), Some(TextField(Some(body))))]))))]))])))
  }

  /** A single text message from a non-empty sender gets exactly one reply,
      to that sender, for its stripped body. */
  lemma SingleTextEventAnswered(from: string, body: string, search: Search)
    requires from != ""
    ensures Answers(TextMessages(SingleTextEvent(from, body)), search) ==
            [Outbound(from, ReplyText(Strip(body), search))]
  {
    var m := Message(Some(from), Some("text"), Some(TextField(Some(body))));
    var c := Change(Some(Value(Some([m]))));
    var e := Entry(Some([c]));
    FlatMapSingle(MessageTexts, m);
    FlatMapSingle(ChangeTexts, c);
    FlatMapSingle(EntryTexts, e);
    assert TextMessages(SingleTextEvent(from, body)) == [(Some(from), Strip(body))];
    ReplyTextNonEmpty(Strip(body), search);
  }

  /** A price question whose search returns two items is answered with the
      header for the simplified query and two numbered blocks. */
  lemma PriceQuestionScenario(body: string, q: string, search: Search, a: Item, b: Item)
    requires body == "precio mochila conejo jellycat" && q == "mochila conejo jellycat"
    requires search(q) == Some(SearchResponse(Some(JBool(true)), Some([a, b])))
    ensures ReplyText(body, search) == "Resultados para: " + q + "\n\n" + Block(1, a) + "\n\n" + Block(2, b)
  {
    PriceQuestionClassified(body);
    BuildQueryExample(body);
    assert ReplyText(body, search) == Reply(q, TopResults(search(q), TopN));
    assert TopResults(search(q), TopN) == [a, b];
    ReplyTwoItems(q, a, b);
  }

  lemma PriceQuestionClassified(body: string)
    requires body == "precio mochila conejo jellycat"
    ensures IsPriceQuery(body)
  {
    assert Lower(body) == body;
    assert OccursAt(Lower(body), Triggers[0], 0);
  }

  lemma ReplyTwoItems(q: string, a: Item, b: Item)
    ensures Reply(q, [a, b]) == "Resultados para: " + q + "\n\n" + Block(1, a) + "\n\n" + Block(2, b)
  {
    ReplySingle(q, a);
    ReplyAppend(q, [a], b);
    assert [a] + [b] == [a, b];
  }

  /** A greeting is not a price question and is answered with the prompt. */
  lemma GreetingScenario(body: string, search: Search)
    requires body == "hola"
    ensures ReplyText(body, search) == Prompt
  {
    assert Lower(body) == body;
    forall t: nat, j: nat | t < |Triggers| ensures !OccursAt(body, Triggers[t], j) {
      // no trigger starts with a letter of "hola"
      assert Triggers[t][0] !in {'h', 'o', 'l', 'a'};
    }
  }

  /** A body that is not JSON reads as an empty event: nothing is sent. */
  lemma MalformedBodySendsNothing(search: Search)
    ensures Answers(TextMessages(None), search) == []
  {
  }

  /** The handling of one message inside `incoming`: a text message gets
      search results or the prompt, sent back to its sender. */
  method Answer(msg: Message, search: Search) returns (out: seq<Outbound>)
    ensures out == Answers(MessageTexts(msg), search)
  {
    var from := msg.from;
    if msg.kind == Some("text") {
      var body := Strip(BodyOf(msg));
      var reply;
      if IsPriceQuery(body) {
        var q := BuildQuery(body);
        var items := TopResults(search(q), TopN);
        reply := FormatReply(q, items);
      } else {
        reply := Prompt;
      }
      assert reply == ReplyText(body, search);
      out := SendWhatsapp(from, reply);
      var texts := [(from, body)];
      assert MessageTexts(msg) == texts;
      assert texts[1..] == [];
      assert Answers(texts, search) == out + Answers([], search);
    } else {
      out := [];
    }
  }

  /** `incoming`: walks entries, changes and messages in order and answers
      every text message; the response is always "ok" with status 200. */
  method Incoming(data: Option<Payload>, search: Search) returns (sent: seq<Outbound>, response: Response)
    ensures sent == Answers(TextMessages(data), search)
    ensures response == Response(Some("ok"), 200)
  {
    sent := [];
    ghost var done: seq<Inbound> := [];
    var entries := EntriesOf(data);
    var i := 0;
    while i < |entries|
      invariant 0 <= i <= |entries|
      invariant done == FlatMap(EntryTexts, entries[..i])
      invariant sent == Answers(done, search)
    {
      ghost var beforeEntry := done;
      var changes := ChangesOf(entries[i]);
      var j := 0;
      while j < |changes|
        invariant 0 <= j <= |changes|
        invariant done == beforeEntry + FlatMap(ChangeTexts, changes[..j])
        invariant sent == Answers(done, search)
      {
        ghost var beforeChange := done;
        var messages := MessagesOf(changes[j]);
        var k := 0;
        while k < |messages|
          invariant 0 <= k <= |messages|
          invariant done == beforeChange + FlatMap(MessageTexts, messages[..k])
          invariant sent == Answers(done, search)
        {
          var out := Answer(messages[k], search);
          AnswersAppend(done, MessageTexts(messages[k]), search);
          FlatMapSnoc(MessageTexts, messages, k);
          ConcatAssociative(beforeChange, FlatMap(MessageTexts, messages[..k]), MessageTexts(messages[k]));
          sent := sent + out;
          done := done + MessageTexts(messages[k]);
          k := k + 1;
        }
        assert messages[..k] == messages;
        FlatMapSnoc(ChangeTexts, changes, j);
        ConcatAssociative(beforeEntry, FlatMap(ChangeTexts, changes[..j]), ChangeTexts(changes[j]));
        j := j + 1;
      }
      assert changes[..j] == changes;
      FlatMapSnoc(EntryTexts, entries, i);
      i := i + 1;
    }
    assert entries[..i] == entries;
    response := Response(Some("ok"), 200);
  }
}
