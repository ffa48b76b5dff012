/** Rewriting of chat attachments into message content before a request goes upstream. */
module Attachments {
  import opened Wrappers
  import opened PyText
  import opened Json
  import opened ByteStrings
  import opened Base64

  /** `str.lower` and the UTF-8 decoding of a file (`None` when it fails), as arbitrary functions. */
  datatype Library = Library(lower: string -> string, decodeText: Bytes -> Option<string>)

  /** The codes of `ChatAttachmentError`. */
  datatype AttachmentError =
    | AttachmentInvalid
    | AttachmentTooLarge
    | AttachmentTypeUnsupported
    | AttachmentCountExceeded
    | ChatRequestInvalid

  const MAX_ATTACHMENTS := 4
  const MAX_TOTAL_BYTES := 4 * 1024 * 1024
  const MAX_IMAGE_BYTES := 3 * 1024 * 1024
  const MAX_TEXT_FILE_BYTES := 512 * 1024

  const IMAGE_TYPES := {"image/jpeg", "image/png", "image/gif", "image/webp"}
  const TEXT_FILE_TYPES := {
    "text/plain", "text/markdown", "text/csv", "text/xml",
    "application/json", "application/xml", "application/yaml", "text/yaml"
  }

  // ---- One attachment ----

  function TextField(value: Json): Result<string, AttachmentError> {
    if value.Str? && value.text != "" then Success(value.text) else Failure(AttachmentInvalid)
  }

  /** The longest encoding that is looked at for a payload of at most `maximum` bytes. */
  function EncodedBound(maximum: nat): nat {
    (maximum + 2) / 3 * 4 + 8
  }

  function DecodeAttachment(value: Json, maximum: nat): Result<Bytes, AttachmentError> {
    var encoded :- TextField(value);
    if |encoded| > EncodedBound(maximum) then Failure(AttachmentTooLarge)
    else
      match Decode(Standard, true, encoded)
      case None => Failure(AttachmentInvalid)
      case Some(decoded) => if |decoded| > maximum then Failure(AttachmentTooLarge) else Success(decoded)
  }

  predicate IsSafeFilename(s: string) {
    1 <= |s| <= 128 && forall c :: c in s ==> c != '\\' && c != '/' && c >= ' '
  }

  function AttachmentName(value: Json): Result<string, AttachmentError> {
    var name :- TextField(value);
    if !IsSafeFilename(name) || name == "." || name == ".." then Failure(AttachmentInvalid) else Success(name)
  }

  function FileText(name: string, text: string): string {
    "[附件：" + name + "]\n" + text + "\n[附件结束]"
  }

  function AppendTextFile(lib: Library, content: string, name: string, raw: Bytes): Result<string, AttachmentError> {
    match lib.decodeText(raw)
    case None => Failure(AttachmentInvalid)
    case Some(text) =>
      if Strip(text) == "" then Failure(AttachmentInvalid)
      else Success(if content != "" then content + "\n\n" + FileText(name, text) else FileText(name, text))
  }

  function DataUri(mediaType: string, raw: Bytes): string {
    "data:" + mediaType + ";base64," + Encode(Standard, raw)
  }

  function ImagePart(mediaType: string, raw: Bytes): Json {
    Obj(map["type" := Str("image_url"), "image_url" := Obj(map["url" := Str(DataUri(mediaType, raw))])])
  }

  /** A checked attachment. */
  datatype Attachment = Image(mediaType: string, raw: Bytes) | File(name: string, raw: Bytes)

  function CheckAttachment(lib: Library, value: Json): Result<Attachment, AttachmentError> {
    if !value.Obj? then Failure(AttachmentInvalid)
    else
      var kind :- TextField(Get(value.fields, "kind"));
      var name :- AttachmentName(Get(value.fields, "name"));
      var mediaType :- TextField(Get(value.fields, "media_type"));
      if lib.lower(kind) == "image" then
        if lib.lower(mediaType) !in IMAGE_TYPES then Failure(AttachmentTypeUnsupported)
        else
          var raw :- DecodeAttachment(Get(value.fields, "data_base64"), MAX_IMAGE_BYTES);
          Success(Image(lib.lower(mediaType), raw))
      else if lib.lower(kind) == "text" then
        if lib.lower(mediaType) !in TEXT_FILE_TYPES then Failure(AttachmentTypeUnsupported)
        else
          var raw :- DecodeAttachment(Get(value.fields, "data_base64"), MAX_TEXT_FILE_BYTES);
          Success(File(name, raw))
      else Failure(AttachmentTypeUnsupported)
  }

  // ---- One message ----

  /** The variables of the attachment loop. */
  datatype Draft = Draft(content: string, images: seq<Json>, total: nat)

  function AddChecked(lib: Library, draft: Draft, attachment: Attachment): Result<Draft, AttachmentError> {
    var total := draft.total + |attachment.raw|;
    match attachment
    case Image(mediaType, raw) =>
      if total > MAX_TOTAL_BYTES then Failure(AttachmentTooLarge)
      else Success(Draft(draft.content, draft.images + [ImagePart(mediaType, raw)], total))
    case File(name, raw) =>
      var content :- AppendTextFile(lib, draft.content, name, raw);
      if total > MAX_TOTAL_BYTES then Failure(AttachmentTooLarge)
      else Success(Draft(content, draft.images, total))
  }

  function AddAttachment(lib: Library, draft: Draft, value: Json): Result<Draft, AttachmentError> {
    var attachment :- CheckAttachment(lib, value);
    AddChecked(lib, draft, attachment)
  }

  function AddAll(lib: Library, draft: Draft, values: seq<Json>): Result<Draft, AttachmentError>
    decreases |values|
  {
    if values == [] then Success(draft)
    else
      var front :- AddAll(lib, draft, values[..|values| - 1]);
      AddAttachment(lib, front, values[|values| - 1])
  }

  function FinalContent(draft: Draft): Json {
    if draft.images == [] then Str(draft.content)
    else
      List((if Strip(draft.content) == "" then []
            else [Obj(map["type" := Str("text"), "text" := Str(draft.content)])]) + draft.images)
  }

  /** A message without its attachments, and the bytes decoded so far. */
  function RewriteMessage(lib: Library, message: Json, total: nat): Result<(Json, nat), AttachmentError> {
    if !message.Obj? then Failure(ChatRequestInvalid)
    else
      var attachments := Get(message.fields, "attachments");
      var fields := message.fields - {"attachments"};
      if attachments.Null? then Success((Obj(fields), total))
      else if Get(fields, "role") != Str("user") then Failure(AttachmentInvalid)
      else if !attachments.List? || attachments.items == [] then Failure(AttachmentInvalid)
      else if |attachments.items| > MAX_ATTACHMENTS then Failure(AttachmentCountExceeded)
      else
        var content := if "content" in fields then fields["content"] else Str("");
        if !content.Str? then Failure(AttachmentInvalid)
        else
          var draft :- AddAll(lib, Draft(content.text, [], total), attachments.items);
          Success((Obj(fields["content" := FinalContent(draft)]), draft.total))
  }

  function RewriteMessages(lib: Library, messages: seq<Json>): Result<(seq<Json>, nat), AttachmentError> {
    if messages == [] then Success(([], 0))
    else
      var front :- RewriteMessages(lib, messages[..|messages| - 1]);
      var last :- RewriteMessage(lib, messages[|messages| - 1], front.1);
      Success((front.0 + [last.0], last.1))
  }

  function RewriteRequest(lib: Library, body: Json): Result<Json, AttachmentError> {
    if !body.Obj? || !Get(body.fields, "messages").List? then Failure(ChatRequestInvalid)
    else
      var messages :- RewriteMessages(lib, Get(body.fields, "messages").items);
      Success(Obj(body.fields["messages" := List(messages.0)]))
  }

  // ---- The loops ----

  lemma {:induction false} AddFailurePropagates(lib: Library, draft: Draft, values: seq<Json>, k: nat)
    requires k <= |values|
    ensures AddAll(lib, draft, values[..k]).Failure? ==> AddAll(lib, draft, values) == AddAll(lib, draft, values[..k])
    decreases |values| - k
  {
    if k == |values| {
      assert values[..k] == values;
    } else {
      assert values[..k + 1][..k] == values[..k];
      AddFailurePropagates(lib, draft, values, k + 1);
    }
  }

  lemma AddNext(lib: Library, draft: Draft, values: seq<Json>, i: nat)
    requires i < |values| && AddAll(lib, draft, values[..i]).Success?
    ensures AddAll(lib, draft, values[..i + 1]) == AddAttachment(lib, AddAll(lib, draft, values[..i]).value, values[i])
  {
    assert values[..i + 1][..i] == values[..i];
  }

  method AddOne(lib: Library, draft: Draft, value: Json) returns (r: Result<Draft, AttachmentError>)
    ensures r == AddAttachment(lib, draft, value)
  {
    var checked := CheckAttachment(lib, value);
    if checked.Failure? {
      return Failure(checked.error);
    }
    var content, imageParts, totalBytes := draft.content, draft.images, draft.total;
    if checked.value.Image? {
      imageParts := imageParts + [ImagePart(checked.value.mediaType, checked.value.raw)];
    } else {
      var appended := AppendTextFile(lib, content, checked.value.name, checked.value.raw);
      if appended.Failure? {
        return Failure(appended.error);
      }
      content := appended.value;
    }
    totalBytes := totalBytes + |checked.value.raw|;
    if totalBytes > MAX_TOTAL_BYTES {
      return Failure(AttachmentTooLarge);
    }
    r := Success(Draft(content, imageParts, totalBytes));
  }

  method AddAttachments(lib: Library, attachments: seq<Json>, text: string, totalBefore: nat)
    returns (r: Result<Draft, AttachmentError>)
    ensures r == AddAll(lib, Draft(text, [], totalBefore), attachments)
  {
    var draft := Draft(text, [], totalBefore);
    ghost var start := draft;
    for i := 0 to |attachments|
      invariant AddAll(lib, start, attachments[..i]) == Success(draft)
    {
      AddNext(lib, start, attachments, i);
      AddFailurePropagates(lib, start, attachments, i + 1);
      var added := AddOne(lib, draft, attachments[i]);
      if added.Failure? {
        return added;
      }
      draft := added.value;
    }
    assert attachments[..|attachments|] == attachments;
    r := Success(draft);
  }

  lemma {:induction false} MessageFailurePropagates(lib: Library, messages: seq<Json>, k: nat)
    requires k <= |messages|
    ensures RewriteMessages(lib, messages[..k]).Failure? ==>
              RewriteMessages(lib, messages) == Failure(RewriteMessages(lib, messages[..k]).error)
    decreases |messages| - k
  {
    if k == |messages| {
      assert messages[..k] == messages;
    } else {
      assert messages[..k + 1][..k] == messages[..k];
      MessageFailurePropagates(lib, messages, k + 1);
    }
  }

  lemma MessageNext(lib: Library, messages: seq<Json>, i: nat)
    requires i < |messages| && RewriteMessages(lib, messages[..i]).Success?
    ensures var front := RewriteMessages(lib, messages[..i]).value;
            RewriteMessages(lib, messages[..i + 1])
              == match RewriteMessage(lib, messages[i], front.1)
                 case Failure(e) => Failure(e)
                 case Success(last) => Success((front.0 + [last.0], last.1))
  {
    assert messages[..i + 1][..i] == messages[..i];
  }

  /** The body of the message loop: the message's new form, and the bytes decoded so far. */
  method RewriteOne(lib: Library, message: Json, totalBefore: nat) returns (r: Result<(Json, nat), AttachmentError>)
    ensures r == RewriteMessage(lib, message, totalBefore)
  {
    if !message.Obj? {
      return Failure(ChatRequestInvalid);
    }
    var rawAttachments := Get(message.fields, "attachments");
    var fields := message.fields - {"attachments"};
    if rawAttachments.Null? {
      return Success((Obj(fields), totalBefore));
    }
    if Get(fields, "role") != Str("user") {
      return Failure(AttachmentInvalid);
    }
    if !rawAttachments.List? || rawAttachments.items == [] {
      return Failure(AttachmentInvalid);
    }
    if |rawAttachments.items| > MAX_ATTACHMENTS {
      return Failure(AttachmentCountExceeded);
    }
    var content := if "content" in fields then fields["content"] else Str("");
    if !content.Str? {
      return Failure(AttachmentInvalid);
    }
    var draft := AddAttachments(lib, rawAttachments.items, content.text, totalBefore);
    if draft.Failure? {
      return Failure(draft.error);
    }
    r := Success((Obj(fields["content" := FinalContent(draft.value)]), draft.value.total));
  }

  /** The message loop of `normalize_chat_attachment_request`, on the parsed body. */
  method NormalizeChatAttachmentRequest(lib: Library, body: Json) returns (r: Result<Json, AttachmentError>)
    ensures r == RewriteRequest(lib, body)
  {
    if !body.Obj? {
      return Failure(ChatRequestInvalid);
    }
    var messages := Get(body.fields, "messages");
    if !messages.List? {
      return Failure(ChatRequestInvalid);
    }
    var rewritten: seq<Json> := [];
    var totalBytes := 0;
    for i := 0 to |messages.items|
      invariant RewriteMessages(lib, messages.items[..i]) == Success((rewritten, totalBytes))
    {
      MessageNext(lib, messages.items, i);
      MessageFailurePropagates(lib, messages.items, i + 1);
      var message := RewriteOne(lib, messages.items[i], totalBytes);
      if message.Failure? {
        return Failure(message.error);
      }
      rewritten := rewritten + [message.value.0];
      totalBytes := message.value.1;
    }
    assert messages.items[..|messages.items|] == messages.items;
    r := Success(Obj(body.fields["messages" := List(rewritten)]));
  }
}
