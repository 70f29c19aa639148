/**
 * Outbound message payloads (handles/message.js). `sendMessage` and
 * `sendGeneratedImage` validate their input and build the JSON body of the
 * POST to the messaging platform; the POST itself, the typing indicator and
 * the access token are I/O and are not modelled. Each builder returns the
 * body that would be sent, or None when nothing is sent.
 */
module Outbound {
  import opened Wrappers
  import opened JsString

  /** One tappable canned reply: `{content_type, title, payload}`. */
  datatype QuickReply = QuickReply(contentType: string, title: string, payload: string)

  /** The reply added to every message that names no quick replies of its own. */
  const MenuQuickReply := QuickReply("text", "Menu", "MENU_PAYLOAD")

  /**
   * An attachment `{type, payload: {url, is_reusable}}`, the shape the router
   * and `sendGeneratedImage` build; `sendMessage` only copies it, so richer
   * attachment objects would pass through the same way.
   */
  datatype Attachment = Attachment(kind: string, url: string, isReusable: bool)

  /**
   * The `message` object, both as callers pass it and as it appears in the
   * payload. An attachment or a quick-reply array, once present, is truthy
   * (an empty array included); text is truthy only when it is not empty.
   */
  datatype MessageBody = MessageBody(
    text: Option<string>,
    attachment: Option<Attachment>,
    quickReplies: Option<seq<QuickReply>>)

  /** The JSON body `{recipient: {id}, message}`. */
  datatype Payload = Payload(recipientId: string, message: MessageBody)

  /** Whether `sendMessage` accepts `message` at all. */
  predicate Sendable(message: Option<MessageBody>) {
    message.Some? && (IsTruthy(message.value.text) || message.value.attachment.Some?)
  }

  /** The payload `sendMessage(senderId, message)` posts, if any. */
  function MessagePayload(senderId: string, message: Option<MessageBody>): (r: Option<Payload>)
    ensures r.Some? <==> Sendable(message)
    ensures r.Some? ==> r.value.recipientId == senderId
    ensures r.Some? ==> (r.value.message.text.Some? <==> IsTruthy(message.value.text))
    ensures r.Some? && r.value.message.text.Some? ==> r.value.message.text == message.value.text
    ensures r.Some? ==> r.value.message.attachment == message.value.attachment
    ensures r.Some? && message.value.quickReplies.Some? ==>
              r.value.message.quickReplies == message.value.quickReplies
    ensures r.Some? && message.value.quickReplies.None? ==>
              r.value.message.quickReplies == Some([MenuQuickReply])
  {
    if !Sendable(message) then
      None
    else
      var m := message.value;
      var text := if IsTruthy(m.text) then m.text else None;
      var replies := if m.quickReplies.Some? then m.quickReplies else Some([MenuQuickReply]);
      Some(Payload(senderId, MessageBody(text, m.attachment, replies)))
  }

  /** The payload `sendGeneratedImage(senderId, imageUrl)` posts, if any. */
  function GeneratedImagePayload(senderId: string, imageUrl: Option<string>): (r: Option<Payload>)
    ensures r.Some? <==> IsTruthy(imageUrl)
    ensures r.Some? ==> r.value.recipientId == senderId
    ensures r.Some? ==> r.value.message.text.None? && r.value.message.quickReplies.None?
    ensures r.Some? ==> r.value.message.attachment == Some(Attachment("image", imageUrl.value, true))
  {
    if !IsTruthy(imageUrl) then
      None
    else
      Some(Payload(senderId, MessageBody(None, Some(Attachment("image", imageUrl.value, true)), None)))
  }

  /** Sending the message part of a built payload again builds the same payload. */
  lemma PayloadIsFixedPoint(senderId: string, message: Option<MessageBody>)
    requires MessagePayload(senderId, message).Some?
    ensures var p := MessagePayload(senderId, message).value;
            MessagePayload(senderId, Some(p.message)) == Some(p)
  {
  }

  /**
   * Every plain, non-empty text message (the only kind the router sends)
   * goes out with exactly the default "Menu" quick reply.
   */
  lemma PlainTextGetsMenu(senderId: string, text: string)
    requires text != ""
    ensures MessagePayload(senderId, Some(MessageBody(Some(text), None, None)))
            == Some(Payload(senderId, MessageBody(Some(text), None, Some([MenuQuickReply]))))
  {
  }

  /** Explicit quick replies replace the menu, even when there are none. */
  lemma EmptyRepliesSuppressMenu(senderId: string, text: string)
    requires text != ""
    ensures MessagePayload(senderId, Some(MessageBody(Some(text), None, Some([])))).value.message.quickReplies
            == Some([])
  {
  }

  /**
   * `sendGeneratedImage` posts the same image attachment that `sendMessage`
   * would, except that it adds no quick replies.
   */
  lemma GeneratedImageHasNoMenu(senderId: string, url: string)
    requires url != ""
    ensures var image := Some(Attachment("image", url, true));
            var viaSend := MessagePayload(senderId, Some(MessageBody(None, image, None)));
            var direct := GeneratedImagePayload(senderId, Some(url));
            viaSend.Some? && direct.Some?
            && direct.value == viaSend.value.(message := viaSend.value.message.(quickReplies := None))
  {
  }
}
