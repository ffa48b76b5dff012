/** What rewriting attachments preserves, bounds and undoes. */
module AttachmentLaws {
  import opened Wrappers
  import opened PyText
  import opened Json
  import opened ByteStrings
  import opened Base64
  import opened Attachments

  // ---- Payloads ----

  /** What follows the comma of a data URI. */
  function Payload(uri: string): string {
    if FirstIndex(uri, ',') < |uri| then uri[FirstIndex(uri, ',') + 1..] else ""
  }

  lemma PayloadAfterComma(head: string, tail: string)
    requires ',' !in head
    ensures Payload(head + "," + tail) == tail
  {
    var s := head + "," + tail;
    assert s[..|head|] == head;
    FirstIndexIs(s, ',', |head|);
  }

  lemma ImageTypesHaveNoComma(mediaType: string)
    requires mediaType in IMAGE_TYPES
    ensures ',' !in mediaType
  {
  }

  lemma UriParts(mediaType: string, raw: Bytes)
    requires ',' !in mediaType
    ensures Payload(DataUri(mediaType, raw)) == Encode(Standard, raw)
  {
    var head := "data:" + mediaType + ";base64";
    PayloadAfterComma(head, Encode(Standard, raw));
    assert DataUri(mediaType, raw) == head + "," + Encode(Standard, raw);
  }

  /** The data URI of an accepted image carries exactly the bytes its attachment decodes to. */
  lemma ImageUriCarriesTheBytes(lib: Library, value: Json)
    requires CheckAttachment(lib, value).Success? && CheckAttachment(lib, value).value.Image?
    ensures var image := CheckAttachment(lib, value).value;
            && Get(value.fields, "data_base64").Str?
            && Decode(Standard, true, Get(value.fields, "data_base64").text) == Some(image.raw)
            && Decode(Standard, true, Payload(DataUri(image.mediaType, image.raw))) == Some(image.raw)
            && image.mediaType in IMAGE_TYPES && |image.raw| <= MAX_IMAGE_BYTES
  {
    var image := CheckAttachment(lib, value).value;
    ImageTypesHaveNoComma(image.mediaType);
    UriParts(image.mediaType, image.raw);
    DecodeUndoesEncode(Standard, true, image.raw);
  }

  // ---- The size guard ----

  lemma GroupsAreMonotone(n: nat, maximum: nat)
    ensures n <= maximum ==> (n + 2) / 3 <= (maximum + 2) / 3
  {
  }

  /**
   The length guard never refuses the canonical encoding of a payload within the maximum, and nothing it lets
   through decodes to more than eight bytes beyond it.
   */
  lemma SizeGuardIsExactEnough(data: Bytes, encoded: string, maximum: nat)
    ensures 0 < |data| <= maximum ==> DecodeAttachment(Str(Encode(Standard, data)), maximum) == Success(data)
    ensures |data| > maximum ==> DecodeAttachment(Str(Encode(Standard, data)), maximum) == Failure(AttachmentTooLarge)
    ensures |encoded| <= EncodedBound(maximum) && Decode(Standard, true, encoded).Some? ==>
              |Decode(Standard, true, encoded).value| <= maximum + 8
  {
    EncodedLength(Standard, data);
    DecodeUndoesEncode(Standard, true, data);
    GroupsAreMonotone(|data|, maximum);
    if |encoded| <= EncodedBound(maximum) && Decode(Standard, true, encoded).Some? {
      DecodeShrinks(Standard, true, encoded);
    }
  }

  // ---- Order ----

  /** The parts of the images among the attachments, in their order. */
  function ImageParts(lib: Library, values: seq<Json>): seq<Json> {
    if values == [] then []
    else
      var front := ImageParts(lib, values[..|values| - 1]);
      match CheckAttachment(lib, values[|values| - 1])
      case Success(Image(mediaType, raw)) => front + [ImagePart(mediaType, raw)]
      case _ => front
  }

  /** The text of a message followed by its text files, in their order. */
  function TextWithFiles(lib: Library, text: string, values: seq<Json>): string {
    if values == [] then text
    else
      var front := TextWithFiles(lib, text, values[..|values| - 1]);
      match CheckAttachment(lib, values[|values| - 1])
      case Success(File(name, raw)) =>
        (match AppendTextFile(lib, front, name, raw) case Success(content) => content case Failure(_) => front)
      case _ => front
  }

  /** The bytes the attachments decode to, together. */
  function DecodedBytes(lib: Library, values: seq<Json>): nat {
    if values == [] then 0
    else
      DecodedBytes(lib, values[..|values| - 1])
      + match CheckAttachment(lib, values[|values| - 1]) case Success(a) => |a.raw| case Failure(_) => 0
  }

  lemma AddedInOrder(lib: Library, draft: Draft, value: Json)
    requires AddAttachment(lib, draft, value).Success?
    ensures CheckAttachment(lib, value).Success?
    ensures var end := AddAttachment(lib, draft, value).value;
            match CheckAttachment(lib, value).value
            case Image(mediaType, raw) =>
              end == Draft(draft.content, draft.images + [ImagePart(mediaType, raw)], draft.total + |raw|)
            case File(name, raw) =>
              && AppendTextFile(lib, draft.content, name, raw).Success?
              && end == Draft(AppendTextFile(lib, draft.content, name, raw).value, draft.images, draft.total + |raw|)
    ensures AddAttachment(lib, draft, value).value.total <= MAX_TOTAL_BYTES
  {
  }

  /** Images and text files each keep their order, however they are mixed, and every byte is counted. */
  lemma {:induction false} AttachmentsKeepTheirOrder(lib: Library, draft: Draft, values: seq<Json>)
    requires AddAll(lib, draft, values).Success?
    ensures var end := AddAll(lib, draft, values).value;
            && end.images == draft.images + ImageParts(lib, values)
            && end.content == TextWithFiles(lib, draft.content, values)
            && end.total == draft.total + DecodedBytes(lib, values)
            && (values != [] ==> end.total <= MAX_TOTAL_BYTES)
  {
    if values != [] {
      AttachmentsKeepTheirOrder(lib, draft, values[..|values| - 1]);
      AddedInOrder(lib, AddAll(lib, draft, values[..|values| - 1]).value, values[|values| - 1]);
    } else {
      assert draft.images + [] == draft.images;
    }
  }

  // ---- Messages ----

  ghost predicate HasAttachments(message: Json) {
    message.Obj? && !Get(message.fields, "attachments").Null?
  }

  /** The decoded bytes of a message's attachments. */
  function MessageBytes(lib: Library, message: Json): nat {
    if message.Obj? && Get(message.fields, "attachments").List?
    then DecodedBytes(lib, Get(message.fields, "attachments").items) else 0
  }

  /**
   One accepted message: without attachments it only loses an explicit null; with attachments it comes from the
   user, has one to four of them and textual content, and gets the accumulated text followed by the images in
   order, or the bare text. Every other field stays.
   */
  lemma MessageIsRewrittenInPlace(lib: Library, message: Json, total: nat)
    requires RewriteMessage(lib, message, total).Success?
    ensures var (out, after) := RewriteMessage(lib, message, total).value;
            && message.Obj? && out.Obj?
            && "attachments" !in out.fields
            && (forall key :: key != "attachments" && key != "content" ==>
                  (key in out.fields <==> key in message.fields)
                  && (key in out.fields ==> out.fields[key] == message.fields[key]))
            && after == total + MessageBytes(lib, message)
    ensures var (out, after) := RewriteMessage(lib, message, total).value;
            !HasAttachments(message) ==> out.fields == message.fields - {"attachments"}
    ensures HasAttachments(message) ==>
              && var (out, after) := RewriteMessage(lib, message, total).value;
              var attachments := Get(message.fields, "attachments");
              && attachments.List? && 1 <= |attachments.items| <= MAX_ATTACHMENTS
              && Get(message.fields, "role") == Str("user")
              && after <= MAX_TOTAL_BYTES
              && var text := if "content" in message.fields then message.fields["content"] else Str("");
              && text.Str?
              && out.fields["content"] == FinalContent(Draft(TextWithFiles(lib, text.text, attachments.items),
                                                             ImageParts(lib, attachments.items), after))
  {
    if HasAttachments(message) {
      var text := if "content" in message.fields then message.fields["content"] else Str("");
      var items := Get(message.fields, "attachments").items;
      AttachmentsKeepTheirOrder(lib, Draft(text.text, [], total), items);
      assert [] + ImageParts(lib, items) == ImageParts(lib, items);
    }
  }

  // ---- Requests ----

  function AllBytes(lib: Library, messages: seq<Json>): nat {
    if messages == [] then 0
    else AllBytes(lib, messages[..|messages| - 1]) + MessageBytes(lib, messages[|messages| - 1])
  }

  lemma NoAttachmentsNoBytes(lib: Library, message: Json)
    requires !HasAttachments(message)
    ensures MessageBytes(lib, message) == 0
  {
  }

  lemma MessageBytesAreCounted(lib: Library, message: Json, total: nat)
    requires RewriteMessage(lib, message, total).Success? && total <= MAX_TOTAL_BYTES
    ensures RewriteMessage(lib, message, total).value.1 == total + MessageBytes(lib, message) <= MAX_TOTAL_BYTES
  {
    MessageIsRewrittenInPlace(lib, message, total);
    if !HasAttachments(message) {
      NoAttachmentsNoBytes(lib, message);
    }
  }

  /** How the last message is rewritten after those before it. */
  lemma RewriteLast(lib: Library, messages: seq<Json>)
    requires messages != [] && RewriteMessages(lib, messages).Success?
    ensures RewriteMessages(lib, messages[..|messages| - 1]).Success?
    ensures var (front, before) := RewriteMessages(lib, messages[..|messages| - 1]).value;
            var last := RewriteMessage(lib, messages[|messages| - 1], before);
            last.Success? && RewriteMessages(lib, messages).value == (front + [last.value.0], last.value.1)
  {
  }

  /** Messages keep their number, and what they decode to is bounded in total. */
  lemma {:induction false} MessagesAreBounded(lib: Library, messages: seq<Json>)
    requires RewriteMessages(lib, messages).Success?
    ensures |RewriteMessages(lib, messages).value.0| == |messages|
    ensures RewriteMessages(lib, messages).value.1 == AllBytes(lib, messages) <= MAX_TOTAL_BYTES
  {
    if messages != [] {
      RewriteLast(lib, messages);
      MessagesAreBounded(lib, messages[..|messages| - 1]);
      MessageBytesAreCounted(lib, messages[|messages| - 1], AllBytes(lib, messages[..|messages| - 1]));
    }
  }

  /** Messages keep their places: each is rewritten by itself, with the bytes of those before it already counted. */
  lemma {:induction false} MessagesKeepTheirPlaces(lib: Library, messages: seq<Json>, i: nat)
    requires RewriteMessages(lib, messages).Success? && i < |messages|
    ensures |RewriteMessages(lib, messages).value.0| == |messages|
    ensures RewriteMessage(lib, messages[i], AllBytes(lib, messages[..i]))
         == Success((RewriteMessages(lib, messages).value.0[i], AllBytes(lib, messages[..i + 1])))
  {
    var front := messages[..|messages| - 1];
    MessagesAreBounded(lib, messages);
    MessagesAreBounded(lib, front);
    if i < |front| {
      MessagesKeepTheirPlaces(lib, front, i);
      assert front[..i] == messages[..i] && front[..i + 1] == messages[..i + 1];
    } else {
      assert messages[..i] == front && messages[..i + 1] == messages;
    }
  }

  /** Every accepted request decodes to at most 4 MiB, and changes nothing but its messages. */
  lemma RequestsAreBounded(lib: Library, body: Json)
    requires RewriteRequest(lib, body).Success?
    ensures var out := RewriteRequest(lib, body).value;
            && body.Obj? && out.Obj? && Get(body.fields, "messages").List? && Get(out.fields, "messages").List?
            && AllBytes(lib, Get(body.fields, "messages").items) <= MAX_TOTAL_BYTES
            && |Get(out.fields, "messages").items| == |Get(body.fields, "messages").items|
            && out.fields - {"messages"} == body.fields - {"messages"}
  {
    MessagesAreBounded(lib, Get(body.fields, "messages").items);
  }

  /** A message that has lost its attachments is left exactly as it is. */
  lemma CleanMessageStays(lib: Library, message: Json, total: nat)
    requires message.Obj? && "attachments" !in message.fields
    ensures RewriteMessage(lib, message, total) == Success((message, total))
  {
    assert message.fields - {"attachments"} == message.fields;
  }

  lemma {:induction false} CleanMessagesStay(lib: Library, messages: seq<Json>)
    requires forall i :: 0 <= i < |messages| ==> messages[i].Obj? && "attachments" !in messages[i].fields
    ensures RewriteMessages(lib, messages) == Success((messages, 0))
  {
    if messages != [] {
      var front, last := messages[..|messages| - 1], messages[|messages| - 1];
      CleanMessagesStay(lib, front);
      CleanMessageStays(lib, last, 0);
      assert messages == front + [last];
    }
  }

  /** Normalising is a normal form: what it produces carries no attachments, and is normalised to itself. */
  lemma NormalisingTwice(lib: Library, body: Json)
    requires RewriteRequest(lib, body).Success?
    ensures var out := RewriteRequest(lib, body).value;
            && RewriteRequest(lib, out) == Success(out)
            && forall i :: 0 <= i < |Get(out.fields, "messages").items| ==>
                 Get(out.fields, "messages").items[i].Obj?
                 && "attachments" !in Get(out.fields, "messages").items[i].fields
  {
    var out := RewriteRequest(lib, body).value;
    var before, after := Get(body.fields, "messages").items, Get(out.fields, "messages").items;
    MessagesAreBounded(lib, before);
    forall i | 0 <= i < |after| ensures after[i].Obj? && "attachments" !in after[i].fields {
      MessagesKeepTheirPlaces(lib, before, i);
      MessageIsRewrittenInPlace(lib, before[i], AllBytes(lib, before[..i]));
    }
    CleanMessagesStay(lib, after);
    assert out.fields["messages" := List(after)] == out.fields;
  }
}
