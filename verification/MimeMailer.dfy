/** The mailer's composing operations (`setMessageType`, `createBody`,
    `attachAll`, `getMailMIME`, `preSend`): the text they print is the printed
    form of the layout, and reads back as it. */
module MimeMailer {
  import opened Strings
  import opened Wrappers
  import opened MimeReader
  import opened MimeLayout
  import opened MimeRoundTrip

  /** `preSend` sets the content type of a message with an alternative body. */
  function WithType(m: Mail): Mail {
    m.(contentType := if HasAlternative(m) then "multipart/alternative" else m.contentType)
  }

  /** The message when it is composed: `createBody` sets the boundaries. */
  function Composed(m: Mail, newId: string): Mail {
    WithType(m).(uid := newId)
  }

  lemma SameType(m: Mail)
    ensures TypeOf(WithType(m)) == TypeOf(m)
  {
  }

  /** From, Sender and ConfirmReadingTo: trimmed, each empty or valid. */
  predicate AreValid(senders: seq<string>, isValid: string -> bool) {
    forall i :: 0 <= i < |senders| ==> IsEmptyName(Trim(senders[i])) || isValid(Trim(senders[i]))
  }

  /** The header `getMailMIME` prints with the encoding the message has then. */
  function PrintedHeader(m: Mail): seq<string> {
    if TypeOf(m).PlainType? then LeafHeader(m.contentType, m.charSet, m.encoding) else TopHeader(m, Subtype(TypeOf(m)))
  }

  /** The message is read back as its layout. */
  ghost predicate ReadsBack(m: Mail, text: string) {
    IsSound(m) ==> Read(Explode(m.le, text)) == Some(Received(m))
  }

  lemma TextReadsBack(m: Mail, header: string, text: string)
    requires header == Unlines(m.le, MimeHeader(m) + [""]) && text == BodyText(m)
    ensures ReadsBack(m, header + text)
  {
    if IsSound(m) { SentIsReceived(m); }
  }

  /** The header printed after the body, which may have changed the encoding. */
  lemma HeaderOfMessage(m: Mail, encoding: string)
    requires encoding == EncodingAfter(m)
    ensures PrintedHeader(m.(encoding := encoding)) == MimeHeader(m)
    ensures TypeOf(m.(encoding := encoding)) == TypeOf(m)
  {
  }

  /** In a plain message the encoding chosen for the body becomes the message's. */
  function EncodingAfter(m: Mail): string {
    if TypeOf(m).PlainType? then TextEncoding(m, m.body) else m.encoding
  }

  class Mailer {
    const le: LineEnding
    const env: Environment
    var charSet: string
    var contentType: string
    var encoding: string
    var body: string
    var altBody: string
    var ical: string
    var attachment: seq<Attachment>
    var messageType: string
    var uid: string
    var errorCount: nat

    constructor (le: LineEnding, env: Environment)
      ensures this.le == le && this.env == env && attachment == [] && errorCount == 0
    {
      this.le, this.env := le, env;
      charSet, contentType, encoding := "iso-8859-1", "text/plain", "8bit";
      body, altBody, ical, attachment, messageType, uid, errorCount := "", "", "", [], "", "", 0;
    }

    function View(): Mail
      reads this
    {
      Mail(le, charSet, contentType, encoding, body, altBody, ical, attachment, uid, env)
    }

    /** `addStringAttachment` and the other `add*` methods */
    method Attach(a: Attachment)
      modifies this`attachment
      ensures attachment == old(attachment) + [a]
    {
      attachment := attachment + [a];
    }

    /** `setMessageType`: the imploded kinds, from which the kinds are read. */
    method SetMessageType()
      modifies this`messageType
      ensures messageType == TypeName(TypeOf(View()))
      ensures "alt" in Explode("_", messageType) <==> HasAlternative(View())
      ensures "inline" in Explode("_", messageType) <==> HasDisposition(View(), "inline")
      ensures "attach" in Explode("_", messageType) <==> HasDisposition(View(), "attachment")
    {
      var kinds := ListKinds();
      ghost var m := View();
      NameOfKinds(m);
      messageType := Implode("_", kinds);
      if messageType == "" {
        messageType := "plain";
      }
      KindsAreRead(m);
    }

    method ListKinds() returns (kinds: seq<string>)
      ensures kinds == Kinds(View())
    {
      kinds := [];
      if HasAlternative(View()) { kinds := kinds + ["alt"]; }
      if HasDisposition(View(), "inline") { kinds := kinds + ["inline"]; }
      if HasDisposition(View(), "attachment") { kinds := kinds + ["attach"]; }
    }

    /** `textLine` */
    function TextLine(value: string): (r: string) {
      value + le
    }

    /** `encodeString`: an unknown encoding is an error and gives no text. */
    method EncodeString(text: string, enc: string) returns (r: string)
      modifies this`errorCount
      ensures r == Encoded(View(), text, enc)
      ensures errorCount == old(errorCount) + (if env.encode(text, enc).None? then 1 else 0)
    {
      var e := env.encode(text, enc);
      if e.None? {
        errorCount := errorCount + 1;
        return "";
      }
      return e.value;
    }

    /** `getBoundary` */
    method GetBoundary(boundary: string, cs: string, ct: string, enc: string) returns (r: string)
      ensures r == Unlines(le, ["--" + boundary] +
        LeafHeader(if ct == "" then contentType else ct, if cs == "" then charSet else cs,
          if enc == "" then encoding else enc) + [""])
    {
      var partCharSet := if cs == "" then charSet else cs;
      var partType := if ct == "" then contentType else ct;
      var partEncoding := if enc == "" then encoding else enc;
      r := TextLine("--" + boundary);
      ghost var lines := ["--" + boundary];
      OneLine(le, "--" + boundary);
      var typeLine := "Content-Type: " + partType + "; charset=" + partCharSet;
      OneLine(le, typeLine);
      Grow(le, r, lines, typeLine + le, [typeLine]);
      r, lines := r + (typeLine + le), lines + [typeLine];
      if partEncoding != "7bit" {
        var encodingLine := "Content-Transfer-Encoding: " + partEncoding;
        OneLine(le, encodingLine);
        Grow(le, r, lines, encodingLine + le, [encodingLine]);
        r, lines := r + (encodingLine + le), lines + [encodingLine];
      }
      OneLine(le, "");
      Grow(le, r, lines, "" + le, [""]);
      assert "" + le == le;
      r := r + le;
      assert lines + [""] == ["--" + boundary] + LeafHeader(partType, partCharSet, partEncoding) + [""];
    }

    /** A text part: its boundary and header, its text, two line endings. */
    method TextPart(boundary: string, cs: string, ct: string, enc: string, text: string, textEncoding: string)
        returns (r: string)
      requires textEncoding == (if enc == "" then encoding else enc)
      modifies this`errorCount
      ensures r == Unlines(le, PartLines(boundary, [TextLeaf(View(), if ct == "" then contentType else ct,
        if cs == "" then charSet else cs, textEncoding, text, [])]))
      ensures errorCount == old(errorCount) + (if env.encode(text, textEncoding).None? then 1 else 0)
    {
      r := GetBoundary(boundary, cs, ct, enc);
      ghost var header := LeafHeader(if ct == "" then contentType else ct, if cs == "" then charSet else cs,
        textEncoding);
      ghost var lines := ["--" + boundary] + header + [""];
      var e := EncodeString(text, textEncoding);
      ContentLines(le, r, lines, e);
      r := r + (e + le + le);
      TextLeafLines(boundary, header, Explode(le, e));
    }

    /** `endBoundary` */
    function EndBoundary(boundary: string): (r: string) {
      le + ("--" + boundary + "--" + le)
    }

    /** The start of a nested multipart. */
    method NestedStart(outer: string, subtype: string, inner: string) returns (r: string)
      ensures r == Unlines(le, ["--" + outer] + NestedHeader(subtype, inner) + [""])
    {
      r := TextLine("--" + outer);
      OneLine(le, "--" + outer);
      var fields := MultipartFields(subtype, inner);
      Grow(le, r, ["--" + outer], fields, NestedHeader(subtype, inner));
      r := r + fields;
      BlankLine(le, r, ["--" + outer] + NestedHeader(subtype, inner));
      r := r + le;
    }

    /** The content type of a multipart and the boundary it announces. */
    method MultipartFields(subtype: string, boundary: string) returns (r: string)
      ensures r == Unlines(le, NestedHeader(subtype, boundary))
    {
      var typeLine, boundaryLine := "Content-Type: multipart/" + subtype + ";", BOUNDARY_PARAMETER + boundary + "\"";
      OneLine(le, typeLine);
      OneLine(le, boundaryLine);
      Grow(le, typeLine + le, [typeLine], boundaryLine + le, [boundaryLine]);
      assert [typeLine] + [boundaryLine] == NestedHeader(subtype, boundary);
      r := TextLine(typeLine) + TextLine(boundaryLine);
    }

    /** `attachAll`: the attachments of one disposition, each once, and the
        closing delimiter. */
    method AttachAll(disposition: string, boundary: string) returns (r: string)
      modifies this`errorCount
      ensures errorCount >= old(errorCount)
      ensures errorCount == 0 ==>
        r == Unlines(le, PartLines(boundary, AttachmentParts(View(), disposition, |attachment|)) +
          ["--" + boundary + "--"])
      ensures old(errorCount) == 0 ==> (errorCount == 0 <==> AttachmentsOk(View(), disposition, |attachment|))
    {
      var mime := "";
      var cidUniq: set<string> := {};
      var incl: set<Attachment> := {};
      ghost var m := View();
      for i := 0 to |attachment|
        invariant errorCount == old(errorCount)
        invariant errorCount == 0 ==> Attaching(m, disposition, boundary, i, incl, cidUniq, mime)
      {
        var a := attachment[i];
        ghost var seen, cids, before := incl, cidUniq, mime;
        if a.disposition != disposition {
          if errorCount == 0 { OtherPassed(m, disposition, boundary, i, seen, cids, mime); }
          continue;
        }
        if a in incl {
          if errorCount == 0 { SeenPassed(m, disposition, boundary, i, seen, cids, mime); }
          continue;
        }
        incl := incl + {a};
        if disposition == "inline" && a.cid in cidUniq {
          if errorCount == 0 { CidPassed(m, disposition, boundary, i, seen, cids, mime); }
          continue;
        }
        cidUniq := cidUniq + {a.cid};
        var part := PrintAttachment(boundary, a);
        assert View() == m;
        if errorCount > 0 {
          if old(errorCount) == 0 { AttachmentFailed(m, disposition, boundary, i, seen, cids, mime); }
          return "";
        }
        mime := mime + part;
        AttachmentAdded(m, disposition, boundary, i, seen, cids, before, part);
      }
      if errorCount == 0 {
        ClosingLine(le, mime, PartLines(boundary, AttachmentParts(m, disposition, |attachment|)), boundary);
      }
      r := mime + ("--" + boundary + "--" + le);
    }

    /** One attachment: delimiter, header, data, two line endings. */
    method PrintAttachment(boundary: string, a: Attachment) returns (r: string)
      modifies this`errorCount
      ensures r == Unlines(le, PartLines(boundary, [AttachmentLeaf(View(), a)]))
      ensures errorCount == old(errorCount) + (if Content(View(), a).None? then 1 else 0)
    {
      var header := HeaderText(boundary, a);
      var content := EncodeAttachment(a);
      AttachmentLines(View(), boundary, a, header, content);
      r := header + (content + le + le);
    }

    /** A text part of the body or the alternative body. */
    method BodyPart(boundary: string, ct: string) returns (r: string)
      modifies this`errorCount
      ensures r == Unlines(le, PartLines(boundary, [BodyLeaf(View(), if ct == "" then contentType else ct, [])]))
      ensures errorCount == old(errorCount) + (if env.encode(body, TextEncoding(View(), body)).None? then 1 else 0)
    {
      r := TextPart(boundary, TextCharSet(View(), body), ct, TextEncoding(View(), body), body,
        TextEncoding(View(), body));
    }

    method AltPart(boundary: string) returns (r: string)
      modifies this`errorCount
      ensures r == Unlines(le, PartLines(boundary, [AltLeaf(View())]))
      ensures errorCount ==
        old(errorCount) + (if env.encode(altBody, TextEncoding(View(), altBody)).None? then 1 else 0)
    {
      r := TextPart(boundary, TextCharSet(View(), altBody), "text/plain", TextEncoding(View(), altBody), altBody,
        TextEncoding(View(), altBody));
    }

    function MimePre(): (r: string) {
      "This is a multi-part message in MIME format." + le + le
    }

    /** The cases 'inline' and 'attach': a body, and the attachments of one
        disposition. */
    method FlatBody(disposition: string) returns (r: string)
      requires (disposition == "inline" && TypeOf(View()).InlineType?) ||
        (disposition == "attachment" && TypeOf(View()).AttachType?)
      modifies this`errorCount
      ensures errorCount >= old(errorCount)
      ensures errorCount == 0 ==> r == BodyText(View())
      ensures old(errorCount) == 0 ==> (errorCount == 0 <==> AllEncodable(View()))
    {
      var b1 := Boundary(View(), '1');
      r := MimePre();
      PreambleText(le);
      var t := BodyPart(b1, "");
      Grow(le, r, Preamble(), t, PartLines(b1, [BodyLeaf(View(), contentType, [])]));
      r := r + t;
      t := AttachAll(disposition, b1);
      ghost var lines := PartLines(b1, AttachmentParts(View(), disposition, |attachment|)) + ["--" + b1 + "--"];
      if errorCount == 0 {
        Grow(le, r, Preamble() + PartLines(b1, [BodyLeaf(View(), contentType, [])]), t, lines);
      }
      r := r + t;
      FlatText(View(), disposition);
    }

    /** A nested multipart with a body and its inline attachments. */
    method RelatedPart(outer: string, inner: string, ct: string) returns (r: string)
      modifies this`errorCount
      ensures errorCount >= old(errorCount)
      ensures errorCount == 0 ==>
        r == Unlines(le, RelatedLines(View(), outer, inner, if ct == "" then contentType else ct))
      ensures old(errorCount) == 0 ==>
        (errorCount == 0 <==> BodyOk(View()) && AttachmentsOk(View(), "inline", |attachment|))
    {
      var leafType := if ct == "" then contentType else ct;
      r := NestedStart(outer, "related", inner);
      ghost var lines := ["--" + outer] + NestedHeader("related", inner) + [""];
      var t := BodyPart(inner, ct);
      Grow(le, r, lines, t, PartLines(inner, [BodyLeaf(View(), leafType, [])]));
      r, lines := r + t, lines + PartLines(inner, [BodyLeaf(View(), leafType, [])]);
      t := AttachAll("inline", inner);
      ghost var more := PartLines(inner, Inlines(View())) + ["--" + inner + "--"];
      if errorCount == 0 {
        Grow(le, r, lines, t, more);
        BlankLine(le, r + t, lines + more);
      }
      r := r + t + le;
    }

    /** The cases of `createBody`, one method each. */
    method InlineAttachBody() returns (r: string)
      requires TypeOf(View()).InlineAttachType?
      modifies this`errorCount
      ensures errorCount >= old(errorCount)
      ensures errorCount == 0 ==> r == BodyText(View())
      ensures old(errorCount) == 0 ==> (errorCount == 0 <==> AllEncodable(View()))
    {
      var b1, b2 := Boundary(View(), '1'), Boundary(View(), '2');
      PreambleText(le);
      r := MimePre();
      ghost var lines := Preamble();
      var t := RelatedPart(b1, b2, "");
      if errorCount == 0 { Grow(le, r, lines, t, RelatedLines(View(), b1, b2, contentType)); }
      r, lines := r + t, lines + RelatedLines(View(), b1, b2, contentType);
      t := AttachAll("attachment", b1);
      if errorCount == 0 { Grow(le, r, lines, t, PartLines(b1, Attached(View())) + ["--" + b1 + "--"]); }
      r := r + t;
      InlineAttachText(View());
    }

    method AltBody() returns (r: string)
      requires TypeOf(View()).AltType?
      modifies this`errorCount
      ensures errorCount >= old(errorCount)
      ensures errorCount == 0 ==> r == BodyText(View())
      ensures old(errorCount) == 0 ==> (errorCount == 0 <==> AllEncodable(View()))
    {
      var b1 := Boundary(View(), '1');
      r := AltTexts(b1);
      ghost var lines := Preamble() + PartLines(b1, [AltLeaf(View())]) +
        PartLines(b1, [BodyLeaf(View(), "text/html", [])]);
      if HasIcal(View()) {
        var t := TextPart(b1, "", "text/calendar; method=REQUEST", "", ical, encoding);
        Grow(le, r, lines, t, PartLines(b1, [IcalText(View())]));
        r := r + t;
      }
      EndText(le, b1);
      Grow(le, r, AltLines(View()), EndBoundary(b1), ["", "--" + b1 + "--"]);
      r := r + EndBoundary(b1);
      AltText(View());
    }

    /** The preamble and the plain part of an alternative. */
    method AltFirst(b1: string) returns (r: string)
      modifies this`errorCount
      ensures r == Unlines(le, Preamble() + PartLines(b1, [AltLeaf(View())]))
      ensures errorCount ==
        old(errorCount) + (if env.encode(altBody, TextEncoding(View(), altBody)).None? then 1 else 0)
    {
      PreambleText(le);
      r := MimePre();
      var t := AltPart(b1);
      Grow(le, r, Preamble(), t, PartLines(b1, [AltLeaf(View())]));
      r := r + t;
    }

    /** The preamble and the two text parts of an alternative. */
    method AltTexts(b1: string) returns (r: string)
      modifies this`errorCount
      ensures r == Unlines(le, Preamble() + PartLines(b1, [AltLeaf(View())]) +
        PartLines(b1, [BodyLeaf(View(), "text/html", [])]))
      ensures errorCount ==
        old(errorCount) + (if env.encode(altBody, TextEncoding(View(), altBody)).None? then 1 else 0)
        + (if env.encode(body, TextEncoding(View(), body)).None? then 1 else 0)
    {
      r := AltFirst(b1);
      var t := BodyPart(b1, "text/html");
      Grow(le, r, Preamble() + PartLines(b1, [AltLeaf(View())]), t, PartLines(b1, [BodyLeaf(View(), "text/html", [])]));
      r := r + t;
    }

    method AltInlineBody() returns (r: string)
      requires TypeOf(View()).AltInlineType?
      modifies this`errorCount
      ensures errorCount >= old(errorCount)
      ensures errorCount == 0 ==> r == BodyText(View())
      ensures old(errorCount) == 0 ==> (errorCount == 0 <==> AllEncodable(View()))
    {
      var b1, b2 := Boundary(View(), '1'), Boundary(View(), '2');
      r := AltFirst(b1);
      ghost var lines := Preamble() + PartLines(b1, [AltLeaf(View())]);
      var t := RelatedPart(b1, b2, "text/html");
      EndText(le, b1);
      if errorCount == 0 {
        Grow(le, r, lines, t, RelatedLines(View(), b1, b2, "text/html"));
        Grow(le, r + t, lines + RelatedLines(View(), b1, b2, "text/html"), EndBoundary(b1), ["", "--" + b1 + "--"]);
      }
      r := r + t + EndBoundary(b1);
      AltInlineText(View());
    }

    method AltAttachBody() returns (r: string)
      requires TypeOf(View()).AltAttachType?
      modifies this`errorCount
      ensures errorCount >= old(errorCount)
      ensures errorCount == 0 ==> r == BodyText(View())
      ensures old(errorCount) == 0 ==> (errorCount == 0 <==> AllEncodable(View()))
    {
      var b1, b2 := Boundary(View(), '1'), Boundary(View(), '2');
      ghost var lines;
      r, lines := AltStart(b1, b2);
      var t := BodyPart(b2, "text/html");
      Grow(le, r, lines, t, PartLines(b2, [BodyLeaf(View(), "text/html", [])]));
      r, lines := r + t, lines + PartLines(b2, [BodyLeaf(View(), "text/html", [])]);
      t := AltEnd(b1, b2, r, lines);
      r := t;
      AltAttachText(View());
    }

    method AltInlineAttachBody() returns (r: string)
      requires TypeOf(View()).AltInlineAttachType?
      modifies this`errorCount
      ensures errorCount >= old(errorCount)
      ensures errorCount == 0 ==> r == BodyText(View())
      ensures old(errorCount) == 0 ==> (errorCount == 0 <==> AllEncodable(View()))
    {
      var b1, b2, b3 := Boundary(View(), '1'), Boundary(View(), '2'), Boundary(View(), '3');
      ghost var lines;
      r, lines := AltStart(b1, b2);
      var t := RelatedPart(b2, b3, "text/html");
      if errorCount == 0 { Grow(le, r, lines, t, RelatedLines(View(), b2, b3, "text/html")); }
      r, lines := r + t, lines + RelatedLines(View(), b2, b3, "text/html");
      t := AltEnd(b1, b2, r, lines);
      r := t;
      AltInlineAttachText(View());
    }

    /** Preamble, a nested alternative, its plain part. */
    method AltStart(b1: string, b2: string) returns (r: string, ghost lines: seq<string>)
      modifies this`errorCount
      ensures lines == Preamble() + (["--" + b1] + NestedHeader("alternative", b2) + [""]) +
        PartLines(b2, [AltLeaf(View())])
      ensures r == Unlines(le, lines)
      ensures errorCount ==
        old(errorCount) + (if env.encode(altBody, TextEncoding(View(), altBody)).None? then 1 else 0)
    {
      PreambleText(le);
      r, lines := MimePre(), Preamble();
      var t := NestedStart(b1, "alternative", b2);
      Grow(le, r, lines, t, ["--" + b1] + NestedHeader("alternative", b2) + [""]);
      r, lines := r + t, lines + (["--" + b1] + NestedHeader("alternative", b2) + [""]);
      t := AltPart(b2);
      Grow(le, r, lines, t, PartLines(b2, [AltLeaf(View())]));
      r, lines := r + t, lines + PartLines(b2, [AltLeaf(View())]);
    }

    /** The end of the nested alternative, and the attachments. */
    method AltEnd(b1: string, b2: string, text: string, ghost lines: seq<string>) returns (r: string)
      requires errorCount == 0 ==> text == Unlines(le, lines)
      modifies this`errorCount
      ensures errorCount >= old(errorCount)
      ensures errorCount == 0 ==>
        r == Unlines(le, lines + ["", "--" + b2 + "--"] + [""] + (PartLines(b1, Attached(View())) + ["--" + b1 + "--"]))
      ensures old(errorCount) == 0 ==> (errorCount == 0 <==> AttachmentsOk(View(), "attachment", |attachment|))
    {
      r := text + EndBoundary(b2);
      EndText(le, b2);
      if errorCount == 0 {
        Grow(le, text, lines, EndBoundary(b2), ["", "--" + b2 + "--"]);
        BlankLine(le, r, lines + ["", "--" + b2 + "--"]);
      }
      r := r + le;
      var t := AttachAll("attachment", b1);
      if errorCount == 0 {
        Grow(le, r, lines + ["", "--" + b2 + "--"] + [""], t, PartLines(b1, Attached(View())) + ["--" + b1 + "--"]);
      }
      r := r + t;
    }

    /** `createBody`, for the message type that `setMessageType` has chosen. Any
        error empties the body. */
    method CreateBody(newId: string) returns (r: string)
      requires messageType == TypeName(TypeOf(View()))
      modifies this`uid, this`errorCount, this`encoding
      ensures uid == newId && encoding == EncodingAfter(old(View()).(uid := newId))
      ensures errorCount > 0 ==> r == ""
      ensures errorCount == 0 ==> r == BodyText(old(View()).(uid := newId))
      ensures old(errorCount) == 0 ==> (errorCount == 0 <==> AllEncodable(old(View()).(uid := newId)))
    {
      uid := newId;
      NamesDiffer(TypeOf(View()));
      if messageType == "inline" {
        r := FlatBody("inline");
      } else if messageType == "attach" {
        r := FlatBody("attachment");
      } else if messageType == "inline_attach" {
        r := InlineAttachBody();
      } else if messageType == "alt" {
        r := AltBody();
      } else if messageType == "alt_inline" {
        r := AltInlineBody();
      } else if messageType == "alt_attach" {
        r := AltAttachBody();
      } else if messageType == "alt_inline_attach" {
        r := AltInlineAttachBody();
      } else {
        r := PlainBody();
      }
      if errorCount > 0 {
        r := "";
      }
    }

    /** The case for a message with a single body. */
    method PlainBody() returns (r: string)
      requires TypeOf(View()).PlainType?
      modifies this`errorCount, this`encoding
      ensures encoding == old(TextEncoding(View(), body))
      ensures errorCount >= old(errorCount)
      ensures errorCount == 0 ==> r == BodyText(old(View()))
      ensures old(errorCount) == 0 ==> (errorCount == 0 <==> AllEncodable(old(View())))
    {
      var bodyEncoding := TextEncoding(View(), body);
      NoneToEncode(View());
      r := EncodeString(body, bodyEncoding);
      encoding := bodyEncoding;
    }

    /** The data of an attachment, encoded; a file that cannot be read or an
        unknown encoding is an error. */
    method EncodeAttachment(a: Attachment) returns (r: string)
      modifies this`errorCount
      ensures r == ContentText(View(), a)
      ensures errorCount == old(errorCount) + (if Content(View(), a).None? then 1 else 0)
    {
      if a.isString {
        r := EncodeString(a.data, a.encoding);
      } else {
        var file := env.readFile(a.data);
        if file.None? {
          errorCount := errorCount + 1;
          return "";
        }
        r := EncodeString(file.value, a.encoding);
      }
    }

    /** The delimiter and header lines of one attachment. */
    method HeaderText(boundary: string, a: Attachment) returns (r: string)
      ensures r == Unlines(le, ["--" + boundary] + AttachmentHeader(View(), a) + [""])
    {
      ghost var m := View();
      r := "--" + boundary + le;
      OneLine(le, "--" + boundary);
      ghost var lines := ["--" + boundary];
      r, lines := AddLines(r, lines, TypeLine(View(), a), true);
      r, lines := AddLines(r, lines, "Content-Transfer-Encoding: " + a.encoding, a.encoding != "7bit");
      r, lines := AddLines(r, lines, "Content-ID: <" + a.cid + ">", a.disposition == "inline");
      r, lines := AddLines(r, lines, DispositionLine(View(), a), true);
      BlankLine(le, r, lines);
      r := r + le;
      HeaderLines(m, boundary, a);
    }

    /** A header field, which may be folded over several lines. */
    method AddLines(text: string, ghost lines: seq<string>, field: string, present: bool)
        returns (r: string, ghost all: seq<string>)
      requires text == Unlines(le, lines)
      ensures all == lines + (if present then Explode(le, field) else []) && r == Unlines(le, all)
    {
      r, all := text, lines + [];
      if present {
        UnlinesExplode(le, field);
        Grow(le, text, lines, field + le, Explode(le, field));
        r, all := text + (field + le), lines + Explode(le, field);
      } else {
        assert lines + [] == lines;
      }
    }

    /** `getMailMIME`, for a message that is not sent with `mail()` */
    method GetMailMIME() returns (r: string)
      requires messageType == TypeName(TypeOf(View()))
      ensures r == Unlines(le, PrintedHeader(View()) + [""])
    {
      var isMultipart := true;
      var boundary := Boundary(View(), '1');
      ghost var t := TypeOf(View());
      ghost var lines := NestedHeader(Subtype(t), boundary);
      NamesDiffer(t);
      if messageType == "inline" {
        r := MultipartFields("related", boundary);
      } else if messageType in ["attach", "inline_attach", "alt_attach", "alt_inline_attach"] {
        r := MultipartFields("mixed", boundary);
      } else if messageType in ["alt", "alt_inline"] {
        r := MultipartFields("alternative", boundary);
      } else {
        r := TextLine("Content-Type: " + contentType + "; charset=" + charSet);
        OneLine(le, "Content-Type: " + contentType + "; charset=" + charSet);
        lines := ["Content-Type: " + contentType + "; charset=" + charSet];
        isMultipart := false;
      }
      assert isMultipart <==> !t.PlainType?;
      ghost var start := lines;
      assert start + [] == start;
      if encoding != "7bit" && (!isMultipart || encoding == "8bit") {
        var encodingLine := "Content-Transfer-Encoding: " + encoding;
        OneLine(le, encodingLine);
        Grow(le, r, lines, encodingLine + le, [encodingLine]);
        r, lines := r + TextLine(encodingLine), lines + [encodingLine];
      }
      assert lines == PrintedHeader(View());
      BlankLine(le, r, lines);
      r := r + le;
    }

    /** `preSend` up to the header of the mail: a message without recipients, with a
        sender address that is not valid, or with an empty body that is not
        allowed is refused and counted as an error. A reader gets the layout of
        any other message from the text, if nothing in it fails to be encoded. */
    method PreSend(newId: string, recipients: nat, senders: seq<string>, isValid: string -> bool, allowEmpty: bool)
      returns (ok: bool, header: string, text: string)
      modifies this`errorCount, this`contentType, this`messageType, this`uid, this`encoding
      ensures ok <==>
        recipients > 0 && (allowEmpty || (body != "" && body != "0")) &&
        forall i :: 0 <= i < |senders| ==>
          var address := Trim(senders[i]); address == "" || address == "0" || isValid(address)
      ensures !ok ==> errorCount == 1 && uid == old(uid) && encoding == old(encoding)
      ensures if recipients > 0 && AreValid(senders, isValid)
        then messageType == TypeName(old(TypeOf(View()))) &&
          contentType == if altBody != "" && altBody != "0" then "multipart/alternative" else old(contentType)
        else messageType == old(messageType) && contentType == old(contentType)
      ensures ok ==> uid == newId && encoding == EncodingAfter(old(Composed(View(), newId)))
      ensures ok ==> (errorCount == 0 <==> AllEncodable(old(Composed(View(), newId))))
      ensures ok && errorCount == 0 ==> ReadsBack(old(Composed(View(), newId)), header + text)
      ensures ok && errorCount > 0 ==> text == ""
    {
      errorCount, ok, header, text := 0, false, "", "";
      if recipients < 1 {
        errorCount := errorCount + 1;
        return;
      }
      for i := 0 to |senders|
        invariant errorCount == 0 && AreValid(senders[..i], isValid)
      {
        var address := Trim(senders[i]);
        assert senders[..i + 1] == senders[..i] + [senders[i]];
        if IsEmptyName(address) {
          continue;
        }
        if !isValid(address) {
          errorCount := errorCount + 1;
          return;
        }
      }
      assert senders[..|senders|] == senders;
      ChooseType();
      if !allowEmpty && IsEmptyName(body) {
        errorCount := errorCount + 1;
        return;
      }
      ok := true;
      header, text := Compose(newId);
    }

    /** The content type of a message with an alternative body, and the type. */
    method ChooseType()
      modifies this`contentType, this`messageType
      ensures View() == old(WithType(View())) && messageType == TypeName(TypeOf(View()))
      ensures TypeOf(View()) == old(TypeOf(View()))
    {
      SameType(View());
      if HasAlternative(View()) {
        contentType := "multipart/alternative";
      }
      SetMessageType();
    }

    /** The body first, because it may change the encoding, then the header. */
    method Compose(newId: string) returns (header: string, text: string)
      requires messageType == TypeName(TypeOf(View()))
      modifies this`errorCount, this`uid, this`encoding
      ensures uid == newId && encoding == EncodingAfter(old(View()).(uid := newId))
      ensures errorCount > 0 ==> text == ""
      ensures errorCount == 0 ==> text == BodyText(old(View()).(uid := newId))
      ensures errorCount == 0 ==> ReadsBack(old(View()).(uid := newId), header + text)
      ensures old(errorCount) == 0 ==> (errorCount == 0 <==> AllEncodable(old(View()).(uid := newId)))
    {
      ghost var m := View().(uid := newId);
      text := CreateBody(newId);
      assert View() == m.(encoding := encoding);
      HeaderOfMessage(m, encoding);
      header := GetMailMIME();
      if errorCount == 0 {
        TextReadsBack(m, header, text);
      }
    }
  }

  /** An attachment whose file cannot be read: composing reports success, but the
      text is empty, and only the error count tells. */
  method UnreadableAttachment(env: Environment, path: string) returns (ok: bool, text: string, errors: nat)
    requires env.readFile(path).None?
    ensures ok && text == "" && errors > 0
  {
    var mailer := new Mailer("\n", env);
    mailer.body := "See the file.";
    mailer.Attach(Attachment(path, path, "file", "base64", "text/plain", false, "attachment", ""));
    ghost var m := Composed(mailer.View(), "id");
    assert m.attachments[0].disposition == "attachment" && Survives(m.attachments, 0) &&
      Content(m, m.attachments[0]).None?;
    assert !AttachmentsOk(m, "attachment", |m.attachments|);
    var header;
    ok, header, text := mailer.PreSend("id", 1, [], (address: string) => true, false);
    errors := mailer.errorCount;
  }
}
