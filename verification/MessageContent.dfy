/** What an accepted attachment message says afterwards, and exactly which attachments and messages are accepted. */
module MessageContent {
  import opened Wrappers
  import opened PyText
  import opened Json
  import opened ByteStrings
  import opened Base64
  import opened Attachments
  import opened AttachmentLaws

  // ---- One attachment, exactly ----

  ghost predicate HasText(value: Json, key: string) {
    value.Obj? && key in value.fields && value.fields[key].Str? && value.fields[key].text != ""
  }

  function TextAt(value: Json, key: string): string
    requires HasText(value, key)
  {
    value.fields[key].text
  }

  /** A file name of 1 to 128 characters without separators and control characters, and no dot name. */
  ghost predicate HasGoodName(value: Json) {
    && HasText(value, "name")
    && var name := TextAt(value, "name");
    && |name| <= 128 && name != "." && name != ".."
    && forall c :: c in name ==> c != '/' && c != '\\' && c as int >= 32
  }

  ghost predicate IsImage(lib: Library, value: Json)
    requires HasText(value, "kind") && HasText(value, "media_type")
  {
    && lib.lower(TextAt(value, "kind")) == "image"
    && lib.lower(TextAt(value, "media_type")) in {"image/jpeg", "image/png", "image/gif", "image/webp"}
  }

  ghost predicate IsTextFile(lib: Library, value: Json)
    requires HasText(value, "kind") && HasText(value, "media_type")
  {
    && lib.lower(TextAt(value, "kind")) == "text"
    && lib.lower(TextAt(value, "media_type")) in {
         "text/plain", "text/markdown", "text/csv", "text/xml",
         "application/json", "application/xml", "application/yaml", "text/yaml"}
  }

  /** The fields every attachment needs before its type is looked at. */
  ghost predicate IsNamed(value: Json) {
    HasText(value, "kind") && HasGoodName(value) && HasText(value, "media_type")
  }

  /** 3 MiB for an image, 512 KiB for a text file. */
  function SizeLimit(lib: Library, value: Json): nat
    requires HasText(value, "kind")
  {
    if lib.lower(TextAt(value, "kind")) == "image" then 3145728 else 524288
  }

  /** The payload is a strict base64 text, no longer than its limit allows, of at most that many bytes. */
  ghost predicate HasPayload(lib: Library, value: Json, raw: Bytes)
    requires HasText(value, "kind")
  {
    && HasText(value, "data_base64")
    && |TextAt(value, "data_base64")| <= (SizeLimit(lib, value) + 2) / 3 * 4 + 8
    && Decode(Standard, true, TextAt(value, "data_base64")) == Some(raw)
    && |raw| <= SizeLimit(lib, value)
  }

  lemma TextIsHad(value: Json, key: string)
    requires value.Obj?
    ensures TextField(Get(value.fields, key)).Success? <==> HasText(value, key)
    ensures HasText(value, key) ==> TextField(Get(value.fields, key)) == Success(TextAt(value, key))
  {
  }

  lemma NameIsGood(value: Json)
    requires value.Obj?
    ensures AttachmentName(Get(value.fields, "name")).Success? <==> HasGoodName(value)
    ensures HasGoodName(value) ==> AttachmentName(Get(value.fields, "name")) == Success(TextAt(value, "name"))
  {
    TextIsHad(value, "name");
  }

  lemma PayloadIsHad(lib: Library, value: Json, raw: Bytes)
    requires HasText(value, "kind")
    ensures DecodeAttachment(Get(value.fields, "data_base64"), SizeLimit(lib, value)) == Success(raw) <==>
              HasPayload(lib, value, raw)
  {
    TextIsHad(value, "data_base64");
  }

  /** An attachment is read as an image, or as a file, exactly when it is one with a payload within bounds. */
  lemma CheckedExactly(lib: Library, value: Json, raw: Bytes)
    ensures forall mediaType :: CheckAttachment(lib, value) == Success(Image(mediaType, raw)) <==>
              IsNamed(value) && IsImage(lib, value) && HasPayload(lib, value, raw)
              && mediaType == lib.lower(TextAt(value, "media_type"))
    ensures forall name :: CheckAttachment(lib, value) == Success(File(name, raw)) <==>
              IsNamed(value) && IsTextFile(lib, value) && HasPayload(lib, value, raw) && name == TextAt(value, "name")
  {
    if value.Obj? {
      TextIsHad(value, "kind");
      NameIsGood(value);
      TextIsHad(value, "media_type");
      if HasText(value, "kind") {
        PayloadIsHad(lib, value, raw);
      }
    }
  }

  /** Which error an attachment that is not accepted gives. */
  lemma RefusedExactly(lib: Library, value: Json)
    requires CheckAttachment(lib, value).Failure?
    ensures CheckAttachment(lib, value).error
         == if !IsNamed(value) then AttachmentInvalid
            else if !IsImage(lib, value) && !IsTextFile(lib, value) then AttachmentTypeUnsupported
            else if !HasText(value, "data_base64") then AttachmentInvalid
            else if |TextAt(value, "data_base64")| > (SizeLimit(lib, value) + 2) / 3 * 4 + 8 then AttachmentTooLarge
            else if Decode(Standard, true, TextAt(value, "data_base64")).None? then AttachmentInvalid
            else AttachmentTooLarge
  {
    if value.Obj? {
      TextIsHad(value, "kind");
      NameIsGood(value);
      TextIsHad(value, "media_type");
      TextIsHad(value, "data_base64");
    }
  }

  // ---- The images of a message ----

  ghost predicate KindIs(lib: Library, value: Json, kind: string) {
    HasText(value, "kind") && lib.lower(TextAt(value, "kind")) == kind
  }

  /** The attachments of one kind, in their order. */
  ghost function OfKind(lib: Library, kind: string, values: seq<Json>): seq<Json> {
    if values == [] then []
    else
      var front, last := OfKind(lib, kind, values[..|values| - 1]), values[|values| - 1];
      if KindIs(lib, last, kind) then front + [last] else front
  }

  /** A message part that shows this image: its data URI has the attachment's type and decodes to its bytes. */
  ghost predicate Shows(lib: Library, value: Json, part: Json) {
    && HasText(value, "media_type") && HasText(value, "data_base64")
    && part.Obj? && part.fields.Keys == {"type", "image_url"}
    && part.fields["type"] == Str("image_url")
    && part.fields["image_url"].Obj? && part.fields["image_url"].fields.Keys == {"url"}
    && part.fields["image_url"].fields["url"].Str?
    && var url := part.fields["image_url"].fields["url"].text;
    && StartsWith(url, "data:" + lib.lower(TextAt(value, "media_type")) + ";base64,")
    && Decode(Standard, true, TextAt(value, "data_base64")).Some?
    && Decode(Standard, true, Payload(url)) == Decode(Standard, true, TextAt(value, "data_base64"))
  }

  lemma UriNamesTheType(mediaType: string, raw: Bytes)
    ensures StartsWith(DataUri(mediaType, raw), "data:" + mediaType + ";base64,")
  {
  }

  lemma ImageIsShown(lib: Library, value: Json, raw: Bytes)
    requires IsNamed(value) && IsImage(lib, value) && HasPayload(lib, value, raw)
    ensures Shows(lib, value, ImagePart(lib.lower(TextAt(value, "media_type")), raw))
  {
    var mediaType := lib.lower(TextAt(value, "media_type"));
    ImageTypesHaveNoComma(mediaType);
    UriNamesTheType(mediaType, raw);
    UriParts(mediaType, raw);
    DecodeUndoesEncode(Standard, true, raw);
  }

  lemma PartOfImage(lib: Library, value: Json)
    requires CheckAttachment(lib, value).Success?
    ensures KindIs(lib, value, "image") <==> CheckAttachment(lib, value).value.Image?
    ensures KindIs(lib, value, "text") <==> CheckAttachment(lib, value).value.File?
    ensures match CheckAttachment(lib, value).value
            case Image(mediaType, raw) => Shows(lib, value, ImagePart(mediaType, raw))
            case File(_, _) => true
  {
    CheckedExactly(lib, value, CheckAttachment(lib, value).value.raw);
    match CheckAttachment(lib, value).value
    case Image(mediaType, raw) => ImageIsShown(lib, value, raw);
    case File(_, _) =>
  }

  ghost predicate AllChecked(lib: Library, values: seq<Json>) {
    forall i :: 0 <= i < |values| ==> CheckAttachment(lib, values[i]).Success?
  }

  ghost predicate ShowsAll(lib: Library, images: seq<Json>, parts: seq<Json>) {
    |parts| == |images| && forall k :: 0 <= k < |images| ==> Shows(lib, images[k], parts[k])
  }

  /** There is one part for every image, in order, and it shows that image. */
  lemma {:induction false} PartsShowTheImages(lib: Library, values: seq<Json>)
    requires AllChecked(lib, values)
    ensures ShowsAll(lib, OfKind(lib, "image", values), ImageParts(lib, values))
  {
    if values != [] {
      PartsShowTheImages(lib, values[..|values| - 1]);
      PartOfImage(lib, values[|values| - 1]);
    }
  }

  // ---- The text of a message ----

  ghost predicate HasSomethingToSee(text: string) {
    exists c :: c in text && !IsSpace(c)
  }

  /** A text file whose payload is text with something to see. */
  ghost predicate IsReadable(lib: Library, value: Json) {
    && HasText(value, "name") && HasText(value, "data_base64")
    && Decode(Standard, true, TextAt(value, "data_base64")).Some?
    && var text := lib.decodeText(Decode(Standard, true, TextAt(value, "data_base64")).value);
    text.Some? && HasSomethingToSee(text.value)
  }

  /** The section that shows a text file: its name, its text, and the closing mark. */
  ghost function Section(lib: Library, value: Json): string
    requires IsReadable(lib, value)
  {
    "[附件：" + TextAt(value, "name") + "]\n"
    + lib.decodeText(Decode(Standard, true, TextAt(value, "data_base64")).value).value
    + "\n[附件结束]"
  }

  ghost function Sections(lib: Library, values: seq<Json>): seq<string>
    requires forall i :: 0 <= i < |values| && KindIs(lib, values[i], "text") ==> IsReadable(lib, values[i])
  {
    if values == [] then []
    else
      var front, last := Sections(lib, values[..|values| - 1]), values[|values| - 1];
      if KindIs(lib, last, "text") then front + [Section(lib, last)] else front
  }

  /** The message's own text, if there is any, and a section for every text file, set apart by blank lines. */
  ghost function FullText(lib: Library, text: string, values: seq<Json>): string
    requires forall i :: 0 <= i < |values| && KindIs(lib, values[i], "text") ==> IsReadable(lib, values[i])
  {
    JoinWith("\n\n", (if text == "" then [] else [text]) + Sections(lib, values))
  }

  // ---- Exactly which attachments are added ----

  /** An attachment that can be added: named, of a supported type, with a payload, and readable if it is a file. */
  ghost predicate IsAcceptable(lib: Library, value: Json) {
    && IsNamed(value)
    && (IsImage(lib, value) || IsTextFile(lib, value))
    && (exists raw :: HasPayload(lib, value, raw))
    && (IsTextFile(lib, value) ==> IsReadable(lib, value))
  }

  lemma BlankText(text: string)
    ensures Strip(text) == "" <==> !HasSomethingToSee(text)
  {
    BlankIff(text);
  }

  lemma FileIsAppended(lib: Library, content: string, value: Json, raw: Bytes)
    requires IsNamed(value) && HasPayload(lib, value, raw)
    ensures AppendTextFile(lib, content, TextAt(value, "name"), raw).Success? <==> IsReadable(lib, value)
    ensures IsReadable(lib, value) ==>
              AppendTextFile(lib, content, TextAt(value, "name"), raw)
                == Success(if content == "" then Section(lib, value) else content + "\n\n" + Section(lib, value))
  {
    var text := lib.decodeText(raw);
    if text.Some? {
      BlankText(text.value);
    }
  }

  /** Adding one attachment. */
  lemma AddedExactly(lib: Library, draft: Draft, value: Json)
    ensures CheckAttachment(lib, value).Success? <==>
              && IsNamed(value) && (IsImage(lib, value) || IsTextFile(lib, value))
              && exists raw :: HasPayload(lib, value, raw)
    ensures AddAttachment(lib, draft, value).Success? <==>
              && CheckAttachment(lib, value).Success? && IsAcceptable(lib, value)
              && draft.total + |CheckAttachment(lib, value).value.raw| <= 4194304
  {
    if CheckAttachment(lib, value).Success? {
      var raw := CheckAttachment(lib, value).value.raw;
      CheckedExactly(lib, value, raw);
      FileIsAppended(lib, draft.content, value, raw);
    }
    if raw :| IsNamed(value) && (IsImage(lib, value) || IsTextFile(lib, value)) && HasPayload(lib, value, raw) {
      CheckedExactly(lib, value, raw);
    }
  }

  ghost predicate AllAcceptable(lib: Library, values: seq<Json>) {
    forall i :: 0 <= i < |values| ==> IsAcceptable(lib, values[i])
  }

  lemma AcceptablePush(lib: Library, values: seq<Json>)
    requires values != []
    ensures AllAcceptable(lib, values) <==>
              AllAcceptable(lib, values[..|values| - 1]) && IsAcceptable(lib, values[|values| - 1])
  {
    var front := values[..|values| - 1];
    assert forall i :: 0 <= i < |front| ==> front[i] == values[i];
  }

  lemma {:induction false} DecodedBytesGrow(lib: Library, values: seq<Json>)
    requires values != [] && CheckAttachment(lib, values[|values| - 1]).Success?
    ensures DecodedBytes(lib, values)
         == DecodedBytes(lib, values[..|values| - 1]) + |CheckAttachment(lib, values[|values| - 1]).value.raw|
  {
  }

  /** A list of attachments is added exactly when each can be and all together, with those before, fit in 4 MiB. */
  lemma {:induction false} AllAddedExactly(lib: Library, draft: Draft, values: seq<Json>)
    ensures AddAll(lib, draft, values).Success? <==>
              AllAcceptable(lib, values) && (values == [] || draft.total + DecodedBytes(lib, values) <= 4194304)
    decreases |values|
  {
    if values != [] {
      var front, last := values[..|values| - 1], values[|values| - 1];
      AllAddedExactly(lib, draft, front);
      AcceptablePush(lib, values);
      if AddAll(lib, draft, front).Success? {
        AttachmentsKeepTheirOrder(lib, draft, front);
        AddedExactly(lib, AddAll(lib, draft, front).value, last);
      } else {
        AddedExactly(lib, draft, last);
      }
      if CheckAttachment(lib, last).Success? {
        DecodedBytesGrow(lib, values);
      }
    }
  }

  // ---- The content of an accepted message ----

  lemma ReadableFiles(lib: Library, values: seq<Json>)
    requires AllAcceptable(lib, values)
    ensures AllChecked(lib, values)
    ensures forall i :: 0 <= i < |values| && KindIs(lib, values[i], "text") ==> IsReadable(lib, values[i])
  {
    forall i | 0 <= i < |values|
      ensures CheckAttachment(lib, values[i]).Success?
      ensures KindIs(lib, values[i], "text") ==> IsReadable(lib, values[i])
    {
      AddedExactly(lib, Draft("", [], 0), values[i]);
      assert IsAcceptable(lib, values[i]);
    }
  }

  lemma {:induction false} SectionsAreFull(lib: Library, values: seq<Json>)
    requires forall i :: 0 <= i < |values| && KindIs(lib, values[i], "text") ==> IsReadable(lib, values[i])
    ensures forall i :: 0 <= i < |Sections(lib, values)| ==> Sections(lib, values)[i] != ""
  {
    if values != [] {
      SectionsAreFull(lib, values[..|values| - 1]);
    }
  }

  lemma FullTextPush(lib: Library, text: string, values: seq<Json>)
    requires values != []
    requires forall i :: 0 <= i < |values| && KindIs(lib, values[i], "text") ==> IsReadable(lib, values[i])
    ensures var front, last := values[..|values| - 1], values[|values| - 1];
            var before := FullText(lib, text, front);
            FullText(lib, text, values)
              == if !KindIs(lib, last, "text") then before
                 else if before == "" then Section(lib, last)
                 else before + "\n\n" + Section(lib, last)
  {
    var front, last := values[..|values| - 1], values[|values| - 1];
    var own := if text == "" then [] else [text];
    if KindIs(lib, last, "text") {
      Associate(own, Sections(lib, front), [Section(lib, last)]);
      JoinSnoc("\n\n", own + Sections(lib, front), Section(lib, last));
      SectionsAreFull(lib, front);
      JoinIsEmpty("\n\n", own + Sections(lib, front));
    }
  }

  /** The text of an accepted message is its own text followed by a section for every file. */
  lemma {:induction false} TextIsFull(lib: Library, text: string, values: seq<Json>)
    requires AllAcceptable(lib, values)
    requires forall i :: 0 <= i < |values| && KindIs(lib, values[i], "text") ==> IsReadable(lib, values[i])
    ensures TextWithFiles(lib, text, values) == FullText(lib, text, values)
  {
    if values == [] {
      assert (if text == "" then [] else [text]) + Sections(lib, values) == if text == "" then [] else [text];
    } else {
      var front, last := values[..|values| - 1], values[|values| - 1];
      AcceptablePush(lib, values);
      TextIsFull(lib, text, front);
      FullTextPush(lib, text, values);
      AddedExactly(lib, Draft("", [], 0), last);
      var raw := CheckAttachment(lib, last).value.raw;
      CheckedExactly(lib, last, raw);
      FileIsAppended(lib, TextWithFiles(lib, text, front), last, raw);
    }
  }

  // ---- Messages, exactly ----

  /** The message has attachments to rewrite: the field is there and not null. */
  ghost predicate IsRewritten(message: Json) {
    message.Obj? && "attachments" in message.fields && message.fields["attachments"] != Null
  }

  /** It comes from the user, has a text or no content, and carries one to four attachments. */
  ghost predicate IsWellFormed(message: Json)
    requires IsRewritten(message)
  {
    && "role" in message.fields && message.fields["role"] == Str("user")
    && message.fields["attachments"].List? && 1 <= |message.fields["attachments"].items| <= 4
    && ("content" in message.fields ==> message.fields["content"].Str?)
  }

  /** A message is accepted after `before` decoded bytes. */
  ghost predicate IsAccepted(lib: Library, message: Json, before: nat) {
    && message.Obj?
    && (IsRewritten(message) ==>
          && IsWellFormed(message)
          && var items := message.fields["attachments"].items;
          AllAcceptable(lib, items) && before + DecodedBytes(lib, items) <= 4194304)
  }

  lemma MessageAcceptedExactly(lib: Library, message: Json, before: nat)
    ensures RewriteMessage(lib, message, before).Success? <==> IsAccepted(lib, message, before)
  {
    if IsRewritten(message) && IsWellFormed(message) {
      var text := if "content" in message.fields then message.fields["content"].text else "";
      AllAddedExactly(lib, Draft(text, [], before), message.fields["attachments"].items);
    }
  }

  /** Which error a message gives before its attachments are looked at. */
  lemma MessageRefusedExactly(lib: Library, message: Json, before: nat)
    requires !message.Obj? || (IsRewritten(message) && !IsWellFormed(message))
    ensures RewriteMessage(lib, message, before)
         == Failure(if !message.Obj? then ChatRequestInvalid
                    else if "role" !in message.fields || message.fields["role"] != Str("user") then AttachmentInvalid
                    else if message.fields["attachments"].List? && |message.fields["attachments"].items| > 4
                    then AttachmentCountExceeded
                    else AttachmentInvalid)
  {
  }

  /** Which error an attachment gives that is not added: its own, or unreadable text, or too much in total. */
  lemma AddRefusedExactly(lib: Library, draft: Draft, value: Json)
    requires AddAttachment(lib, draft, value).Failure?
    ensures AddAttachment(lib, draft, value).error
         == if CheckAttachment(lib, value).Failure? then CheckAttachment(lib, value).error
            else if IsTextFile(lib, value) && !IsReadable(lib, value) then AttachmentInvalid
            else AttachmentTooLarge
  {
    if CheckAttachment(lib, value).Success? {
      var raw := CheckAttachment(lib, value).value.raw;
      CheckedExactly(lib, value, raw);
      FileIsAppended(lib, draft.content, value, raw);
    }
  }

  /** The first attachment that cannot be added decides the error of the message. */
  lemma FirstErrorWins(lib: Library, draft: Draft, values: seq<Json>, k: nat)
    requires k < |values| && AddAll(lib, draft, values[..k]).Success?
    requires AddAttachment(lib, AddAll(lib, draft, values[..k]).value, values[k]).Failure?
    ensures AddAll(lib, draft, values) == AddAttachment(lib, AddAll(lib, draft, values[..k]).value, values[k])
  {
    AddNext(lib, draft, values, k);
    AddFailurePropagates(lib, draft, values, k + 1);
  }

  /** The text part of a list, or nothing for a text with nothing to see. */
  ghost predicate IsLead(lead: seq<Json>, text: string) {
    lead == if HasSomethingToSee(text) then [Obj(map["type" := Str("text"), "text" := Str(text)])] else []
  }

  /**
   Without an image the content is the text. With images it is a list of one text part, or none if there is nothing
   to see in the text, followed by one part for every image, in order, each showing its image.
   */
  ghost predicate Presents(lib: Library, content: Json, text: string, images: seq<Json>) {
    if images == [] then content == Str(text)
    else
      && content.List? && |content.items| >= |images|
      && IsLead(content.items[..|content.items| - |images|], text)
      && ShowsAll(lib, images, content.items[|content.items| - |images|..])
  }

  lemma TakeAndDrop<T>(a: seq<T>, b: seq<T>)
    ensures (a + b)[..|a + b| - |b|] == a && (a + b)[|a + b| - |b|..] == b
  {
  }

  lemma FinalContentPresents(lib: Library, draft: Draft, images: seq<Json>)
    requires ShowsAll(lib, images, draft.images)
    ensures Presents(lib, FinalContent(draft), draft.content, images)
  {
    BlankText(draft.content);
    if images != [] {
      var lead := if Strip(draft.content) == "" then []
                  else [Obj(map["type" := Str("text"), "text" := Str(draft.content)])];
      assert FinalContent(draft) == List(lead + draft.images);
      TakeAndDrop(lead, draft.images);
    }
  }

  /** The text a message brings along, which may be missing. */
  ghost function OwnText(message: Json): string
    requires IsRewritten(message) && IsWellFormed(message)
  {
    if "content" in message.fields then message.fields["content"].text else ""
  }

  lemma AcceptedParts(lib: Library, message: Json, before: nat)
    requires RewriteMessage(lib, message, before).Success? && IsRewritten(message)
    ensures IsWellFormed(message) && AllAcceptable(lib, message.fields["attachments"].items)
    ensures var out, values := RewriteMessage(lib, message, before).value, message.fields["attachments"].items;
            && out.0.Obj? && "content" in out.0.fields
            && out.0.fields["content"]
                 == FinalContent(Draft(TextWithFiles(lib, OwnText(message), values), ImageParts(lib, values), out.1))
  {
    MessageAcceptedExactly(lib, message, before);
    MessageIsRewrittenInPlace(lib, message, before);
  }

  /**
   The content of an accepted message with attachments presents its full text, which is its own text and a section
   for every file, and its images.
   */
  lemma AcceptedContent(lib: Library, message: Json, before: nat)
    requires RewriteMessage(lib, message, before).Success? && IsRewritten(message)
    ensures IsWellFormed(message)
    ensures var values := message.fields["attachments"].items;
            forall i :: 0 <= i < |values| && KindIs(lib, values[i], "text") ==> IsReadable(lib, values[i])
    ensures var values := message.fields["attachments"].items;
            var out := RewriteMessage(lib, message, before).value.0;
            && out.Obj? && "content" in out.fields
            && Presents(lib, out.fields["content"], FullText(lib, OwnText(message), values),
                        OfKind(lib, "image", values))
  {
    AcceptedParts(lib, message, before);
    var values, after := message.fields["attachments"].items, RewriteMessage(lib, message, before).value.1;
    ReadableFiles(lib, values);
    TextIsFull(lib, OwnText(message), values);
    PartsShowTheImages(lib, values);
    FinalContentPresents(lib, Draft(TextWithFiles(lib, OwnText(message), values), ImageParts(lib, values), after),
                         OfKind(lib, "image", values));
  }

  // ---- Requests, exactly ----

  /** The message at `i` is accepted after the bytes decoded for those before it. */
  ghost predicate AcceptedAt(lib: Library, messages: seq<Json>, i: nat)
    requires i < |messages|
  {
    IsAccepted(lib, messages[i], AllBytes(lib, messages[..i]))
  }

  ghost predicate AllAccepted(lib: Library, messages: seq<Json>) {
    forall i :: 0 <= i < |messages| ==> AcceptedAt(lib, messages, i)
  }

  lemma AcceptedInFront(lib: Library, messages: seq<Json>, i: nat)
    requires i < |messages| - 1
    ensures AcceptedAt(lib, messages, i) <==> AcceptedAt(lib, messages[..|messages| - 1], i)
  {
    var front := messages[..|messages| - 1];
    assert front[..i] == messages[..i];
  }

  lemma AllAcceptedPush(lib: Library, messages: seq<Json>)
    requires messages != []
    ensures AllAccepted(lib, messages) <==>
              AllAccepted(lib, messages[..|messages| - 1]) && AcceptedAt(lib, messages, |messages| - 1)
  {
    var front := messages[..|messages| - 1];
    forall i | 0 <= i < |front| && AllAccepted(lib, messages) ensures AcceptedAt(lib, front, i) {
      AcceptedInFront(lib, messages, i);
      assert AcceptedAt(lib, messages, i);
    }
    forall i | 0 <= i < |front| && AllAccepted(lib, front) ensures AcceptedAt(lib, messages, i) {
      AcceptedInFront(lib, messages, i);
      assert AcceptedAt(lib, front, i);
    }
  }

  lemma RewritePush(lib: Library, messages: seq<Json>)
    requires messages != []
    ensures var front := RewriteMessages(lib, messages[..|messages| - 1]);
            RewriteMessages(lib, messages).Success? <==>
              front.Success? && RewriteMessage(lib, messages[|messages| - 1], front.value.1).Success?
  {
  }

  lemma {:induction false} MessagesAcceptedExactly(lib: Library, messages: seq<Json>)
    ensures RewriteMessages(lib, messages).Success? <==> AllAccepted(lib, messages)
  {
    if messages != [] {
      var front := messages[..|messages| - 1];
      MessagesAcceptedExactly(lib, front);
      AllAcceptedPush(lib, messages);
      RewritePush(lib, messages);
      MessageAcceptedExactly(lib, messages[|messages| - 1], AllBytes(lib, front));
      if RewriteMessages(lib, front).Success? {
        MessagesAreBounded(lib, front);
      }
    }
  }

  /** A request is rewritten exactly when it is an object with a list of messages that are all accepted. */
  lemma RequestAcceptedExactly(lib: Library, body: Json)
    ensures RewriteRequest(lib, body).Success? <==>
              body.Obj? && "messages" in body.fields && body.fields["messages"].List?
              && AllAccepted(lib, body.fields["messages"].items)
    ensures !(body.Obj? && "messages" in body.fields && body.fields["messages"].List?) ==>
              RewriteRequest(lib, body) == Failure(ChatRequestInvalid)
  {
    if body.Obj? && "messages" in body.fields && body.fields["messages"].List? {
      MessagesAcceptedExactly(lib, body.fields["messages"].items);
    }
  }
}
