/**
 * The WhatsApp webhook helpers other than text rewriting: the outbound
 * text-message record, the placeholder reply generator, the validator of an
 * incoming webhook body, and the part of message processing that pulls the
 * sender and the text out of the body and builds the reply.
 */
module WhatsAppMessage {
  import opened Wrappers
  import opened PyJson

  // ---------------------------------------------------------------------------
  // get_text_message_input
  // ---------------------------------------------------------------------------

  datatype TextBody = TextBody(previewUrl: bool, body: string)

  /** The dict that `get_text_message_input` hands to `json.dumps`. */
  datatype TextMessage = TextMessage(
    messagingProduct: string,
    recipientType: string,
    to: Json,
    kind: string,
    text: TextBody)

  /** The fixed part of every outbound text message. */
  predicate IsOutboundText(m: TextMessage) {
    && m.messagingProduct == "whatsapp"
    && m.recipientType == "individual"
    && m.kind == "text"
    && !m.text.previewUrl
  }

  /**
   * The recipient is kept as whatever value the caller passes: the reply path
   * hands over the `wa_id` of the webhook body unchanged.
   */
  function TextMessageInput(recipient: Json, text: string): (m: TextMessage)
    ensures IsOutboundText(m)
    ensures m.to == recipient && m.text.body == text
  {
    TextMessage("whatsapp", "individual", recipient, "text", TextBody(false, text))
  }

  /** Every outbound text message is the one built from its own recipient and body. */
  lemma OutboundTextRoundTrip(m: TextMessage)
    requires IsOutboundText(m)
    ensures TextMessageInput(m.to, m.text.body) == m
  {
  }

  // ---------------------------------------------------------------------------
  // generate_response
  // ---------------------------------------------------------------------------

  predicate IsLower(c: char) {
    'a' <= c <= 'z'
  }

  function UpperChar(c: char): char {
    if IsLower(c) then (c as int - ('a' as int - 'A' as int)) as char else c
  }

  /** `str.upper()` on ASCII letters: the reply is the message shouted back. */
  function GenerateResponse(s: string): (r: string)
    ensures |r| == |s|
    ensures forall i :: 0 <= i < |r| ==> !IsLower(r[i])
    ensures forall i :: 0 <= i < |s| && IsLower(s[i]) ==> r[i] as int == s[i] as int - 32 && 'A' <= r[i] <= 'Z'
    ensures forall i :: 0 <= i < |s| && !IsLower(s[i]) ==> r[i] == s[i]
  {
    seq(|s|, i requires 0 <= i < |s| => UpperChar(s[i]))
  }

  lemma GenerateResponseIdempotent(s: string)
    ensures GenerateResponse(GenerateResponse(s)) == GenerateResponse(s)
  {
  }

  // ---------------------------------------------------------------------------
  // is_valid_whatsapp_message
  // ---------------------------------------------------------------------------

  /** `v[0]` can be taken and is truthy: a list with a truthy head, or a non-empty string. */
  predicate FirstTruthy(v: Json) {
    || (v.JArray? && v.items != [] && Truthy(v.items[0]))
    || (v.JString? && v.s != [])
  }

  /** The path `entry[0].changes[0].value` exists, through lists of dicts, and ends in a dict. */
  predicate HasChangeValue(body: map<string, Json>) {
    && "entry" in body && StartsWithDict(body["entry"])
    && HasField(body["entry"].items[0], "changes")
    && StartsWithDict(body["entry"].items[0].fields["changes"])
    && HasField(body["entry"].items[0].fields["changes"].items[0], "value")
    && body["entry"].items[0].fields["changes"].items[0].fields["value"].JObject?
  }

  function ChangeValue(body: map<string, Json>): map<string, Json>
    requires HasChangeValue(body)
  {
    body["entry"].items[0].fields["changes"].items[0].fields["value"].fields
  }

  /** The bodies the validator accepts, stated on their shape. */
  predicate Accepts(body: map<string, Json>) {
    && "object" in body && Truthy(body["object"])
    && HasChangeValue(body)
    && "messages" in ChangeValue(body)
    && FirstTruthy(ChangeValue(body)["messages"])
  }

  /**
   * Every container the validator reaches has the type its lookup needs, so
   * no exception can be raised.
   */
  predicate PathTyped(body: map<string, Json>) {
    "entry" in body && Truthy(body["entry"]) ==>
      DictList(body["entry"]) &&
      var entry0 := body["entry"].items[0].fields;
      ("changes" in entry0 && Truthy(entry0["changes"]) ==>
        DictList(entry0["changes"]) &&
        var change0 := entry0["changes"].items[0].fields;
        ("value" in change0 && Truthy(change0["value"]) ==>
          change0["value"].JObject? &&
          var value := change0["value"].fields;
          ("messages" in value && Truthy(value["messages"]) ==>
            value["messages"].JArray? || value["messages"].JString?)))
  }

  /**
   * The short-circuit `and` chain; `Ok(b)` is the truth value of the value
   * Python's `and` returns, which is all its caller uses, and `Err` an
   * exception raised by a lookup on a value of the wrong type.
   */
  function IsValidWhatsAppMessage(body: map<string, Json>): (r: Result<bool, PyError>)
    ensures r == Ok(true) <==> Accepts(body)
    ensures !("object" in body && Truthy(body["object"])) ==> r == Ok(false)
    ensures PathTyped(body) ==> r.Ok?
    ensures "object" in body && Truthy(body["object"]) && !PathTyped(body) ==> r.Err?
  {
    if !TruthyOpt(DictGet(body, "object")) then Ok(false)
    else if !TruthyOpt(DictGet(body, "entry")) then Ok(false)
    else
      var entry0 :- First(body["entry"]);
      var changes :- Get(entry0, "changes");
      if !TruthyOpt(changes) then Ok(false)
      else
        var change0 :- First(changes.value);
        var value :- Get(change0, "value");
        if !TruthyOpt(value) then Ok(false)
        else
          var messages :- Get(value.value, "messages");
          if !TruthyOpt(messages) then Ok(false)
          else
            var message0 :- First(messages.value);
            Ok(Truthy(message0))
  }

  // ---------------------------------------------------------------------------
  // process_whatsapp_message, up to the reply it sends
  // ---------------------------------------------------------------------------

  /** Every lookup of the reply path finds a value of the type the next step needs. */
  predicate ReplyShape(body: map<string, Json>) {
    && HasChangeValue(body)
    && var value := ChangeValue(body);
    && "contacts" in value && StartsWithDict(value["contacts"])
    && (var contact := value["contacts"].items[0];
        HasField(contact, "wa_id") && HasField(contact, "profile")
        && HasField(contact.fields["profile"], "name"))
    && "messages" in value && StartsWithDict(value["messages"])
    && (var message := value["messages"].items[0];
        HasField(message, "text") && HasField(message.fields["text"], "body")
        && message.fields["text"].fields["body"].JString?)
  }

  /** `contacts[0].wa_id` of the change value. */
  function SenderId(body: map<string, Json>): Json
    requires ReplyShape(body)
  {
    ChangeValue(body)["contacts"].items[0].fields["wa_id"]
  }

  /** `messages[0].text.body` of the change value. */
  function MessageText(body: map<string, Json>): string
    requires ReplyShape(body)
  {
    ChangeValue(body)["messages"].items[0].fields["text"].fields["body"].s
  }

  /**
   * The lookups of `process_whatsapp_message` in source order, then the
   * reply record; the profile name is looked up (and can fail) although only
   * a log line uses it. `.upper()` exists only on strings.
   */
  function ProcessWhatsAppMessage(body: map<string, Json>): (r: Result<TextMessage, PyError>)
    ensures r.Ok? <==> ReplyShape(body)
    ensures r.Ok? ==> r.value == TextMessageInput(SenderId(body), GenerateResponse(MessageText(body)))
  {
    var entry :- Item(JObject(body), "entry");
    var entry0 :- First(entry);
    var changes :- Item(entry0, "changes");
    var change0 :- First(changes);
    var value :- Item(change0, "value");
    var contacts :- Item(value, "contacts");
    var contact0 :- First(contacts);
    var waId :- Item(contact0, "wa_id");
    var profile :- Item(contact0, "profile");
    var name :- Item(profile, "name");
    var messages :- Item(value, "messages");
    var message :- First(messages);
    var text :- Item(message, "text");
    var messageBody :- Item(text, "body");
    if !messageBody.JString? then Err(AttributeError)
    else Ok(TextMessageInput(waId, GenerateResponse(messageBody.s)))
  }

  /**
   * The validator never looks at `contacts`: a body it accepts whose change
   * value has no `contacts` still makes the reply path raise `KeyError`.
   */
  lemma ValidationGap(body: map<string, Json>)
    requires Accepts(body) && "contacts" !in ChangeValue(body)
    ensures IsValidWhatsAppMessage(body) == Ok(true)
    ensures ProcessWhatsAppMessage(body) == Err(KeyError)
  {
  }

  /** A webhook body of that kind: a text message with no contact. */
  function ContactlessWebhook(): map<string, Json> {
    var message := JObject(map["text" := JObject(map["body" := JString("hola")])]);
    var value := JObject(map["messages" := JArray([message])]);
    var change := JObject(map["value" := value]);
    map["object" := JString("whatsapp_business_account"),
        "entry" := JArray([JObject(map["changes" := JArray([change])])])]
  }

  lemma ContactlessWebhookAccepted()
    ensures Accepts(ContactlessWebhook()) && "contacts" !in ChangeValue(ContactlessWebhook())
  {
    var message := ChangeValue(ContactlessWebhook())["messages"].items[0];
    assert "text" in message.fields;
  }

  /**
   * The other direction holds: every body the reply path can answer, with a
   * truthy `object`, passes the validator.
   */
  lemma AnswerableIsValid(body: map<string, Json>)
    requires ReplyShape(body) && "object" in body && Truthy(body["object"])
    ensures IsValidWhatsAppMessage(body) == Ok(true)
  {
    var message := ChangeValue(body)["messages"].items[0];
    assert "text" in message.fields;
  }

  /** The reply goes back to the sender and carries the message text upper-cased. */
  lemma ReplyToSender(body: map<string, Json>)
    requires ReplyShape(body)
    ensures ProcessWhatsAppMessage(body).Ok?
    ensures var m := ProcessWhatsAppMessage(body).value;
      && IsOutboundText(m)
      && m.to == SenderId(body)
      && |m.text.body| == |MessageText(body)|
      && forall i :: 0 <= i < |m.text.body| ==> !IsLower(m.text.body[i])
  {
  }
}
