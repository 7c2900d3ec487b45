/** The tree of the MIME message that the mailer prints, for every message type,
    and the lines the tree is printed as. */
module MimeLayout {
  import opened Strings
  import opened Wrappers
  import opened MimeReader

  /** An entry of the attachment list: string data or a path, with the other
      columns of the array. */
  datatype Attachment = Attachment(data: string, filename: string, name: string, encoding: string, mime: string,
                                   isString: bool, disposition: string, cid: string)

  /** The encodings and files the printing depends on: `encodeString` (nothing
      for an unknown encoding), file contents (nothing for an unreadable file),
      and `encodeHeader` of a secured name. */
  datatype Environment = Environment(encode: (string, string) -> Option<string>, readFile: string -> Option<string>,
                                     encodeName: string -> string)

  datatype MessageType = PlainType | InlineType | AttachType | InlineAttachType
                       | AltType | AltInlineType | AltAttachType | AltInlineAttachType

  /** What is printed. */
  datatype Mail = Mail(le: LineEnding, charSet: string, contentType: string, encoding: string,
                       body: string, altBody: string, ical: string, attachments: seq<Attachment>,
                       uid: string, env: Environment)

  function Boundary(m: Mail, k: char): string {
    ['b', k] + "_" + m.uid
  }

  // ---- encodings chosen for the texts ------------------------------------------

  /** `hasLineLongerThanMax` */
  predicate HasLongLine(s: string) {
    exists i :: 0 <= i < |Explode("\n", s)| && |Explode("\n", s)[i]| >= 1000
  }

  /** The character set and encoding of the body; 7bit when 8bit is not needed,
      quoted-printable when lines are too long. */
  function TextCharSet(m: Mail, text: string): string {
    if m.encoding == "8bit" && !HasHighByte(text) then "us-ascii" else m.charSet
  }

  function TextEncoding(m: Mail, text: string): string {
    if m.encoding != "base64" && HasLongLine(text) then "quoted-printable"
    else if m.encoding == "8bit" && !HasHighByte(text) then "7bit"
    else m.encoding
  }

  function Encoded(m: Mail, text: string, encoding: string): string {
    var e := m.env.encode(text, encoding);
    if e.Some? then e.value else ""
  }

  // ---- the layout -----------------------------------------------------------------

  function LeafHeader(contentType: string, charSet: string, encoding: string): seq<string> {
    ["Content-Type: " + contentType + "; charset=" + charSet] +
    (if encoding != "7bit" then ["Content-Transfer-Encoding: " + encoding] else [])
  }

  /** A part with a text; two line endings follow the text, of which the second
      belongs to the delimiter, and `extra` blank lines more. */
  function TextLeaf(m: Mail, contentType: string, charSet: string, encoding: string, text: string,
      extra: seq<string>): Entity {
    Leaf(LeafHeader(contentType, charSet, encoding), Explode(m.le, Encoded(m, text, encoding)) + [""] + extra)
  }

  function BodyLeaf(m: Mail, contentType: string, extra: seq<string>): Entity {
    TextLeaf(m, contentType, TextCharSet(m, m.body), TextEncoding(m, m.body), m.body, extra)
  }

  function AltLeaf(m: Mail): Entity {
    TextLeaf(m, "text/plain", TextCharSet(m, m.altBody), TextEncoding(m, m.altBody), m.altBody, [])
  }

  function IcalLeaf(m: Mail): Entity {
    TextLeaf(m, "text/calendar; method=REQUEST", m.charSet, m.encoding, m.ical, [""])
  }

  function NestedHeader(subtype: string, boundary: string): seq<string> {
    ["Content-Type: multipart/" + subtype + ";", BOUNDARY_PARAMETER + boundary + "\""]
  }

  // ---- attachments -----------------------------------------------------------------

  predicate IsEmptyName(s: string) {
    s == "" || s == "0"
  }

  /** `[ \(\)<>@,;:\\"\/\[\]\?=]`, in which the backslash only quotes the quote */
  predicate NeedsQuotes(s: string) {
    exists i :: 0 <= i < |s| && s[i] in " ()<>@,;:\"/[]?="
  }

  function TypeLine(m: Mail, a: Attachment): string {
    "Content-Type: " + a.mime + (if IsEmptyName(a.name) then "" else "; name=\"" + m.env.encodeName(a.name) + "\"")
  }

  function DispositionLine(m: Mail, a: Attachment): string {
    var name := m.env.encodeName(a.name);
    "Content-Disposition: " + a.disposition +
    (if NeedsQuotes(name) then "; filename=\"" + name + "\"" else if IsEmptyName(name) then ""
      else "; filename=" + name)
  }

  function AttachmentHeader(m: Mail, a: Attachment): seq<string> {
    Explode(m.le, TypeLine(m, a)) +
    (if a.encoding != "7bit" then Explode(m.le, "Content-Transfer-Encoding: " + a.encoding) else []) +
    (if a.disposition == "inline" then Explode(m.le, "Content-ID: <" + a.cid + ">") else []) +
    Explode(m.le, DispositionLine(m, a))
  }

  function Content(m: Mail, a: Attachment): Option<string> {
    if a.isString then m.env.encode(a.data, a.encoding)
    else
      var file := m.env.readFile(a.data);
      if file.None? then None else m.env.encode(file.value, a.encoding)
  }

  function ContentText(m: Mail, a: Attachment): string {
    if Content(m, a).Some? then Content(m, a).value else ""
  }

  function AttachmentLeaf(m: Mail, a: Attachment): Entity {
    Leaf(AttachmentHeader(m, a), Explode(m.le, ContentText(m, a)) + [""])
  }

  /** An attachment is printed unless an earlier one of its disposition is
      identical, or is inline with the same content id. */
  predicate Survives(atts: seq<Attachment>, i: nat)
    requires i < |atts|
  {
    forall j :: 0 <= j < i && atts[j].disposition == atts[i].disposition ==>
      atts[j] != atts[i] && (atts[i].disposition == "inline" ==> atts[j].cid != atts[i].cid)
  }

  /** The lists `$incl` and `$cidUniq` of `attachAll`. */
  function SeenBefore(atts: seq<Attachment>, disposition: string, i: nat): set<Attachment>
    requires i <= |atts|
  {
    if i == 0 then {}
    else SeenBefore(atts, disposition, i - 1) + (if atts[i - 1].disposition == disposition then {atts[i - 1]} else {})
  }

  function CidsBefore(atts: seq<Attachment>, disposition: string, i: nat): set<string>
    requires i <= |atts|
  {
    if i == 0 then {}
    else
      CidsBefore(atts, disposition, i - 1) +
      (if atts[i - 1].disposition == disposition then {atts[i - 1].cid} else {})
  }

  lemma {:induction false} ListsHold(atts: seq<Attachment>, disposition: string, i: nat)
    requires i <= |atts|
    ensures forall a :: a in SeenBefore(atts, disposition, i) <==>
      exists j :: 0 <= j < i && atts[j].disposition == disposition && atts[j] == a
    ensures forall c :: c in CidsBefore(atts, disposition, i) <==>
      exists j :: 0 <= j < i && atts[j].disposition == disposition && atts[j].cid == c
  {
    if i > 0 { ListsHold(atts, disposition, i - 1); }
  }

  /** The test of the loop decides who survives. */
  lemma SurvivesByLists(atts: seq<Attachment>, i: nat)
    requires i < |atts|
    ensures var a := atts[i]; var d := a.disposition;
      Survives(atts, i) <==> a !in SeenBefore(atts, d, i) && (d == "inline" ==> a.cid !in CidsBefore(atts, d, i))
    ensures var a := atts[i]; var d := a.disposition; a in SeenBefore(atts, d, i) ==> a.cid in CidsBefore(atts, d, i)
  {
    ListsHold(atts, atts[i].disposition, i);
  }

  /** The positions of the attachments of one disposition that survive. */
  function Survivors(atts: seq<Attachment>, disposition: string, n: nat): (at: seq<nat>)
    requires n <= |atts|
    ensures forall k :: 0 <= k < |at| ==> at[k] < n
  {
    if n == 0 then []
    else
      var before := Survivors(atts, disposition, n - 1);
      if atts[n - 1].disposition == disposition && Survives(atts, n - 1) then before + [n - 1] else before
  }

  function AttachmentParts(m: Mail, disposition: string, n: nat): seq<Entity>
    requires n <= |m.attachments|
  {
    if n == 0 then []
    else
      var before, a := AttachmentParts(m, disposition, n - 1), m.attachments[n - 1];
      if a.disposition == disposition && Survives(m.attachments, n - 1) then before + [AttachmentLeaf(m, a)] else before
  }

  function Inlines(m: Mail): seq<Entity> {
    AttachmentParts(m, "inline", |m.attachments|)
  }

  function Attached(m: Mail): seq<Entity> {
    AttachmentParts(m, "attachment", |m.attachments|)
  }

  predicate HasDisposition(m: Mail, disposition: string) {
    exists i :: 0 <= i < |m.attachments| && m.attachments[i].disposition == disposition
  }

  predicate HasAlternative(m: Mail) {
    m.altBody != "" && m.altBody != "0"
  }

  function TypeOf(m: Mail): MessageType {
    var inl, att := HasDisposition(m, "inline"), HasDisposition(m, "attachment");
    if HasAlternative(m) then
      (if inl && att then AltInlineAttachType else if inl then AltInlineType else if att then AltAttachType
        else AltType)
    else
      (if inl && att then InlineAttachType else if inl then InlineType else if att then AttachType else PlainType)
  }

  // ---- the name of the message type ------------------------------------------------

  function TypeName(t: MessageType): string {
    match t
    case PlainType => "plain"
    case InlineType => "inline"
    case AttachType => "attach"
    case InlineAttachType => "inline_attach"
    case AltType => "alt"
    case AltInlineType => "alt_inline"
    case AltAttachType => "alt_attach"
    case AltInlineAttachType => "alt_inline_attach"
  }

  /** The names tell the eight types apart. */
  lemma NamesDiffer(t: MessageType)
    ensures TypeName(t) == "inline" <==> t.InlineType?
    ensures TypeName(t) == "attach" <==> t.AttachType?
    ensures TypeName(t) == "inline_attach" <==> t.InlineAttachType?
    ensures TypeName(t) == "alt" <==> t.AltType?
    ensures TypeName(t) == "alt_inline" <==> t.AltInlineType?
    ensures TypeName(t) == "alt_attach" <==> t.AltAttachType?
    ensures TypeName(t) == "alt_inline_attach" <==> t.AltInlineAttachType?
    ensures TypeName(t) == "plain" <==> t.PlainType?
  {
    var name := TypeName(t);
    assert name[0] == 'i' <==> t.InlineType? || t.InlineAttachType?;
    assert name[0] == 'p' <==> t.PlainType?;
    assert |name| == 10 ==> (name[4] == 'i' <==> t.AltInlineType?);
  }

  /** What a message has besides its body, in the order `setMessageType` looks
      for it. */
  function Kinds(m: Mail): seq<string> {
    (if HasAlternative(m) then ["alt"] else []) +
    (if HasDisposition(m, "inline") then ["inline"] else []) +
    (if HasDisposition(m, "attachment") then ["attach"] else [])
  }

  lemma KindsHave(m: Mail)
    ensures "alt" in Kinds(m) <==> HasAlternative(m)
    ensures "inline" in Kinds(m) <==> HasDisposition(m, "inline")
    ensures "attach" in Kinds(m) <==> HasDisposition(m, "attachment")
    ensures TypeOf(m).PlainType? <==> Kinds(m) == []
  {
    KindNamesDiffer();
  }

  lemma KindNamesDiffer()
    ensures "alt" != "inline" && "inline" != "attach" && "alt" != "attach"
  {
    assert "inline"[0] != "attach"[0];
  }

  /** The imploded kinds are the name of the type, and exploding the name gives
      the kinds back. */
  lemma NameOfKinds(m: Mail)
    ensures TypeName(TypeOf(m)) == if Kinds(m) == [] then "plain" else Implode("_", Kinds(m))
    ensures Kinds(m) != [] ==> Implode("_", Kinds(m)) != "" && Explode("_", TypeName(TypeOf(m))) == Kinds(m)
  {
    ImplodedIsName(m);
    if Kinds(m) != [] {
      NoKindIsCut(m);
      ExplodeImplode('_', Kinds(m));
      assert ['_'] == "_";
    }
  }

  lemma ImplodedIsName(m: Mail)
    ensures Implode("_", Kinds(m)) == if TypeOf(m).PlainType? then "" else TypeName(TypeOf(m))
    ensures Kinds(m) == [] <==> TypeOf(m).PlainType?
  {
    ImplodedKinds();
    match TypeOf(m)
    case PlainType =>
    case InlineType => assert Kinds(m) == ["inline"];
    case AttachType => assert Kinds(m) == ["attach"];
    case InlineAttachType => assert Kinds(m) == ["inline", "attach"];
    case AltType => assert Kinds(m) == ["alt"];
    case AltInlineType => assert Kinds(m) == ["alt", "inline"];
    case AltAttachType => assert Kinds(m) == ["alt", "attach"];
    case AltInlineAttachType => assert Kinds(m) == ["alt", "inline", "attach"];
  }

  /** The name tells what the message has. */
  lemma KindsAreRead(m: Mail)
    ensures var kinds := Explode("_", TypeName(TypeOf(m)));
      && ("alt" in kinds <==> HasAlternative(m))
      && ("inline" in kinds <==> HasDisposition(m, "inline"))
      && ("attach" in kinds <==> HasDisposition(m, "attachment"))
  {
    NameOfKinds(m);
    KindsHave(m);
    if Kinds(m) == [] {
      ExplodeAbsent("_", "plain");
      assert "plain"[0] == 'p';
    }
  }

  lemma NoKindIsCut(m: Mail)
    ensures forall i :: 0 <= i < |Kinds(m)| ==> '_' !in Kinds(m)[i]
  {
    assert '_' !in "alt" && '_' !in "inline" && '_' !in "attach";
    assert forall kind :: kind in Kinds(m) ==> kind == "alt" || kind == "inline" || kind == "attach";
  }

  lemma ImplodedKinds()
    ensures Implode("_", ["alt", "inline"]) == "alt_inline" && Implode("_", ["alt", "attach"]) == "alt_attach"
    ensures Implode("_", ["inline", "attach"]) == "inline_attach"
    ensures Implode("_", ["alt", "inline", "attach"]) == "alt_inline_attach"
  {
    ImplodeTwo("_", "alt", "inline");
    ImplodeTwo("_", "alt", "attach");
    ImplodeTwo("_", "inline", "attach");
    ImplodeSnoc("_", ["alt", "inline"], "attach");
    assert ["alt", "inline"] + ["attach"] == ["alt", "inline", "attach"];
    assert "alt" + "_" + "inline" == "alt_inline" && "alt" + "_" + "attach" == "alt_attach";
    assert "inline" + "_" + "attach" == "inline_attach" && "alt_inline" + "_" + "attach" == "alt_inline_attach";
  }

  lemma ImplodeTwo(sep: string, a: string, b: string)
    ensures Implode(sep, [a, b]) == a + sep + b
  {
    assert [a, b][..1] == [a];
  }

  // ---- the expected entity -----------------------------------------------------------

  function Preamble(): seq<string> {
    ["This is a multi-part message in MIME format.", ""]
  }

  /** The header lines `getMailMIME` prints for a multipart message. */
  function TopHeader(m: Mail, subtype: string): seq<string> {
    NestedHeader(subtype, Boundary(m, '1')) +
      (if m.encoding == "8bit" then ["Content-Transfer-Encoding: " + m.encoding] else [])
  }

  /** In a plain message the encoding chosen for the body is the message's. */
  function PlainHeader(m: Mail): seq<string> {
    LeafHeader(m.contentType, m.charSet, TextEncoding(m, m.body))
  }

  function Subtype(t: MessageType): string {
    match t
    case InlineType => "related"
    case AltType => "alternative"
    case AltInlineType => "alternative"
    case _ => "mixed"
  }

  function MimeHeader(m: Mail): seq<string> {
    if TypeOf(m).PlainType? then PlainHeader(m) else TopHeader(m, Subtype(TypeOf(m)))
  }

  function Top(m: Mail, subtype: string, parts: seq<Entity>): Entity {
    Multi(TopHeader(m, subtype), Boundary(m, '1'), Preamble(), parts, [])
  }

  function Nested(m: Mail, subtype: string, k: char, parts: seq<Entity>, epilogue: seq<string>): Entity {
    Multi(NestedHeader(subtype, Boundary(m, k)), Boundary(m, k), [], parts, epilogue)
  }

  predicate HasIcal(m: Mail) {
    m.ical != "" && m.ical != "0"
  }

  /** The parts of a plain alternative; the closing line starts with a line
      ending of its own. */
  function Alternatives(m: Mail): seq<Entity> {
    if HasIcal(m) then [AltLeaf(m), BodyLeaf(m, "text/html", []), IcalLeaf(m)]
    else [AltLeaf(m), BodyLeaf(m, "text/html", [""])]
  }

  function HtmlWithInlines(m: Mail, k: char): Entity {
    Nested(m, "related", k, [BodyLeaf(m, "text/html", [])] + Inlines(m), ["", ""])
  }

  /** The tree of the message: bodies, inline parts and attachments at the
      places the message type gives them. */
  function Layout(m: Mail): Entity {
    match TypeOf(m)
    case PlainType => Leaf(PlainHeader(m), Explode(m.le, Encoded(m, m.body, TextEncoding(m, m.body))))
    case InlineType => Top(m, "related", [BodyLeaf(m, m.contentType, [])] + Inlines(m))
    case AttachType => Top(m, "mixed", [BodyLeaf(m, m.contentType, [])] + Attached(m))
    case InlineAttachType =>
      Top(m, "mixed", [Nested(m, "related", '2', [BodyLeaf(m, m.contentType, [])] + Inlines(m), [""])] + Attached(m))
    case AltType => Top(m, "alternative", Alternatives(m))
    case AltInlineType => Top(m, "alternative", [AltLeaf(m), HtmlWithInlines(m, '2')])
    case AltAttachType =>
      Top(m, "mixed", [Nested(m, "alternative", '2', [AltLeaf(m), BodyLeaf(m, "text/html", [""])], [""])] + Attached(m))
    case AltInlineAttachType =>
      Top(m, "mixed", [Nested(m, "alternative", '2', [AltLeaf(m), HtmlWithInlines(m, '3')], [""])] + Attached(m))
  }

  /** The lines of a nested multipart with the body and its inline attachments,
      and one line more. */
  function RelatedLines(m: Mail, outer: string, inner: string, ct: string): seq<string> {
    ["--" + outer] + NestedHeader("related", inner) + [""] + PartLines(inner, [BodyLeaf(m, ct, [])])
    + (PartLines(inner, Inlines(m)) + ["--" + inner + "--"]) + [""]
  }

  // ---- what can be encoded ---------------------------------------------------------

  predicate BodyOk(m: Mail) {
    m.env.encode(m.body, TextEncoding(m, m.body)).Some?
  }

  predicate AltOk(m: Mail) {
    m.env.encode(m.altBody, TextEncoding(m, m.altBody)).Some?
  }

  predicate IcalOk(m: Mail) {
    HasIcal(m) ==> m.env.encode(m.ical, m.encoding).Some?
  }

  predicate AttachmentsOk(m: Mail, disposition: string, n: nat)
    requires n <= |m.attachments|
  {
    forall i :: 0 <= i < n && m.attachments[i].disposition == disposition && Survives(m.attachments, i) ==>
      Content(m, m.attachments[i]).Some?
  }

  /** Every part that is printed has a known encoding and a readable file. */
  predicate AllEncodable(m: Mail) {
    && BodyOk(m) && (HasAlternative(m) ==> AltOk(m)) && (TypeOf(m).AltType? ==> IcalOk(m))
    && AttachmentsOk(m, "inline", |m.attachments|) && AttachmentsOk(m, "attachment", |m.attachments|)
  }

  // ---- building the text -----------------------------------------------------------

  lemma Grow(le: string, text: string, lines: seq<string>, more: string, moreLines: seq<string>)
    requires text == Unlines(le, lines) && more == Unlines(le, moreLines)
    ensures text + more == Unlines(le, lines + moreLines)
  {
    UnlinesAppend(le, lines, moreLines);
  }

  lemma PreambleText(le: string)
    ensures "This is a multi-part message in MIME format." + le + le == Unlines(le, Preamble())
  {
    OneLine(le, Preamble()[0]);
    assert Preamble() == [Preamble()[0]] + [""];
    BlankLine(le, Preamble()[0] + le, [Preamble()[0]]);
  }

  lemma OneLine(le: string, line: string)
    ensures Unlines(le, [line]) == line + le
  {
    assert [line][..0] == [];
    assert Unlines(le, [line]) == "" + (line + le);
  }

  lemma {:induction false} PartLinesAppend(b: string, a: seq<Entity>, c: seq<Entity>)
    ensures PartLines(b, a + c) == PartLines(b, a) + PartLines(b, c)
  {
    if a == [] {
      assert a + c == c;
    } else {
      assert (a + c)[1..] == a[1..] + c;
      PartLinesAppend(b, a[1..], c);
    }
  }

  lemma PartLinesOne(b: string, e: Entity)
    ensures PartLines(b, [e]) == ["--" + b] + Lines(e)
  {
    assert [e][1..] == [];
    assert PartLines(b, [e]) == ["--" + b] + (Lines(e) + []);
  }

  lemma TextLeafLines(boundary: string, header: seq<string>, text: seq<string>)
    ensures PartLines(boundary, [Leaf(header, text + [""] + [])]) == ["--" + boundary] + header + [""] + (text + [""])
  {
    PartLinesOne(boundary, Leaf(header, text + [""] + []));
    assert text + [""] + [] == text + [""];
  }

  lemma EndText(le: string, b: string)
    ensures le + ("--" + b + "--" + le) == Unlines(le, ["", "--" + b + "--"])
  {
    OneLine(le, "");
    OneLine(le, "--" + b + "--");
    assert "" + le == le && [""] + ["--" + b + "--"] == ["", "--" + b + "--"];
    Grow(le, le, [""], "--" + b + "--" + le, ["--" + b + "--"]);
  }

  // ---- the text is the layout ----------------------------------------------------

  /** What `createBody` prints: below the message header. */
  function BodyText(m: Mail): string {
    var e := Layout(m);
    if e.Leaf? then Encoded(m, m.body, TextEncoding(m, m.body)) else Unlines(m.le, BodyLines(e))
  }

  lemma RelatedIsNested(m: Mail, outer: string, k: char, ct: string)
    ensures PartLines(outer, [Nested(m, "related", k, [BodyLeaf(m, ct, [])] + Inlines(m), [""])]) ==
      RelatedLines(m, outer, Boundary(m, k), ct)
    ensures PartLines(outer, [Nested(m, "related", k, [BodyLeaf(m, ct, [])] + Inlines(m), ["", ""])]) ==
      RelatedLines(m, outer, Boundary(m, k), ct) + [""]
  {
    var inner := Boundary(m, k);
    PartLinesAppend(inner, [BodyLeaf(m, ct, [])], Inlines(m));
    var a, b, h := PartLines(inner, [BodyLeaf(m, ct, [])]), PartLines(inner, Inlines(m)),
      NestedHeader("related", inner);
    NestedLines(outer, Nested(m, "related", k, [BodyLeaf(m, ct, [])] + Inlines(m), [""]), a, b);
    NestedLines(outer, Nested(m, "related", k, [BodyLeaf(m, ct, [])] + Inlines(m), ["", ""]), a, b);
    assert RelatedLines(m, outer, inner, ct) + [""] ==
      ["--" + outer] + h + [""] + a + (b + ["--" + inner + "--"]) + ["", ""];
  }

  /** A nested multipart whose parts print as `a` and then `b`. */
  lemma NestedLines(outer: string, e: Entity, a: seq<string>, b: seq<string>)
    requires e.Multi? && e.preamble == [] && PartLines(e.boundary, e.parts) == a + b
    ensures PartLines(outer, [e]) == ["--" + outer] + e.header + [""] + a + (b + ["--" + e.boundary + "--"]) +
      e.epilogue
  {
    PartLinesOne(outer, e);
    assert BodyLines(e) == [] + (a + b + (["--" + e.boundary + "--"] + e.epilogue));
  }

  lemma TopLines(m: Mail, subtype: string, parts: seq<Entity>, rest: seq<Entity>)
    ensures BodyLines(Top(m, subtype, parts + rest)) ==
      Preamble() + PartLines(Boundary(m, '1'), parts) +
        (PartLines(Boundary(m, '1'), rest) + ["--" + Boundary(m, '1') + "--"])
  {
    PartLinesAppend(Boundary(m, '1'), parts, rest);
  }

  /** An extra blank line at the end of a text part. */
  lemma ExtraLine(m: Mail, b: string, header: seq<string>, text: seq<string>)
    ensures PartLines(b, [Leaf(header, text + [""] + [""])]) == PartLines(b, [Leaf(header, text + [""] + [])]) + [""]
  {
    PartLinesOne(b, Leaf(header, text + [""] + [""]));
    PartLinesOne(b, Leaf(header, text + [""] + []));
  }

  function IcalText(m: Mail): Entity {
    TextLeaf(m, "text/calendar; method=REQUEST", m.charSet, m.encoding, m.ical, [])
  }

  lemma BodyExtra(m: Mail, b: string)
    ensures PartLines(b, [BodyLeaf(m, "text/html", [""])]) == PartLines(b, [BodyLeaf(m, "text/html", [])]) + [""]
    ensures PartLines(b, [IcalLeaf(m)]) == PartLines(b, [IcalText(m)]) + [""]
  {
    ExtraLine(m, b, BodyLeaf(m, "text/html", []).header, Explode(m.le, Encoded(m, m.body, TextEncoding(m, m.body))));
    ExtraLine(m, b, IcalText(m).header, Explode(m.le, Encoded(m, m.ical, m.encoding)));
  }

  /** The lines of a plain alternative before its closing delimiter. */
  function AltLines(m: Mail): seq<string> {
    var texts := Preamble() + PartLines(Boundary(m, '1'), [AltLeaf(m)]) +
      PartLines(Boundary(m, '1'), [BodyLeaf(m, "text/html", [])]);
    if HasIcal(m) then texts + PartLines(Boundary(m, '1'), [IcalText(m)]) else texts
  }

  lemma AlternativesLines(m: Mail)
    ensures BodyLines(Top(m, "alternative", Alternatives(m))) == AltLines(m) + ["", "--" + Boundary(m, '1') + "--"]
  {
    var b1 := Boundary(m, '1');
    BodyExtra(m, b1);
    var alt, html := AltLeaf(m), BodyLeaf(m, "text/html", []);
    if HasIcal(m) {
      assert Alternatives(m) == [alt] + ([html] + [IcalLeaf(m)]);
      TopLines(m, "alternative", [alt], [html] + [IcalLeaf(m)]);
      PartLinesAppend(b1, [html], [IcalLeaf(m)]);
      Closing(Preamble() + PartLines(b1, [alt]), PartLines(b1, [html]), PartLines(b1, [IcalText(m)]), b1);
    } else {
      var last := BodyLeaf(m, "text/html", [""]);
      assert Alternatives(m) == [alt] + [last];
      TopLines(m, "alternative", [alt], [last]);
      Closing(Preamble() + PartLines(b1, [alt]), [], PartLines(b1, [html]), b1);
    }
  }

  lemma Closing(a: seq<string>, b: seq<string>, c: seq<string>, boundary: string)
    ensures a + (b + (c + [""]) + ["--" + boundary + "--"]) == a + b + c + ["", "--" + boundary + "--"]
    ensures a + [] == a && [] + (c + [""]) == c + [""]
  {
  }

  lemma AltInlineLines(m: Mail)
    ensures BodyLines(Top(m, "alternative", [AltLeaf(m), HtmlWithInlines(m, '2')])) ==
      Preamble() + PartLines(Boundary(m, '1'), [AltLeaf(m)])
      + RelatedLines(m, Boundary(m, '1'), Boundary(m, '2'), "text/html") + ["", "--" + Boundary(m, '1') + "--"]
  {
    assert [AltLeaf(m), HtmlWithInlines(m, '2')] == [AltLeaf(m)] + [HtmlWithInlines(m, '2')];
    TopLines(m, "alternative", [AltLeaf(m)], [HtmlWithInlines(m, '2')]);
    RelatedIsNested(m, Boundary(m, '1'), '2', "text/html");
  }

  /** A nested alternative of the plain part and `html`, which prints as `lines`
      and a blank line. */
  lemma NestedAlternative(m: Mail, html: Entity, lines: seq<string>)
    requires PartLines(Boundary(m, '2'), [html]) == lines + [""]
    ensures BodyLines(Top(m, "mixed", [Nested(m, "alternative", '2', [AltLeaf(m), html], [""])] + Attached(m))) ==
      Preamble() + (["--" + Boundary(m, '1')] + NestedHeader("alternative", Boundary(m, '2')) + [""])
      + PartLines(Boundary(m, '2'), [AltLeaf(m)]) + lines + ["", "--" + Boundary(m, '2') + "--"] + [""]
      + (PartLines(Boundary(m, '1'), Attached(m)) + ["--" + Boundary(m, '1') + "--"])
  {
    var b1, b2 := Boundary(m, '1'), Boundary(m, '2');
    var e := Nested(m, "alternative", '2', [AltLeaf(m), html], [""]);
    assert [AltLeaf(m), html] == [AltLeaf(m)] + [html];
    PartLinesAppend(b2, [AltLeaf(m)], [html]);
    NestedLines(b1, e, PartLines(b2, [AltLeaf(m)]), lines + [""]);
    TopLines(m, "mixed", [e], Attached(m));
    Regroup(Preamble(), ["--" + b1] + NestedHeader("alternative", b2) + [""], PartLines(b2, [AltLeaf(m)]), lines,
      "--" + b2 + "--");
  }

  lemma Regroup(a: seq<string>, b: seq<string>, c: seq<string>, d: seq<string>, closing: string)
    ensures a + (b + c + (d + [""] + [closing]) + [""]) == a + b + c + d + ["", closing] + [""]
  {
  }

  /** The lines of each layout, in the order `createBody` prints them. */
  lemma LayoutLines(m: Mail)
    ensures var b1, b2, b3 := Boundary(m, '1'), Boundary(m, '2'), Boundary(m, '3');
      var attached := PartLines(b1, Attached(m)) + ["--" + b1 + "--"];
      var altStart := Preamble() + (["--" + b1] + NestedHeader("alternative", b2) + [""]) + PartLines(b2, [AltLeaf(m)]);
      match TypeOf(m)
      case PlainType => Layout(m).Leaf?
      case InlineType => (BodyLines(Layout(m)) ==
        Preamble() + PartLines(b1, [BodyLeaf(m, m.contentType, [])]) + (PartLines(b1, Inlines(m)) + ["--" + b1 + "--"]))
      case AttachType => BodyLines(Layout(m)) == Preamble() + PartLines(b1, [BodyLeaf(m, m.contentType, [])]) + attached
      case InlineAttachType => BodyLines(Layout(m)) == Preamble() + RelatedLines(m, b1, b2, m.contentType) + attached
      case AltType => BodyLines(Layout(m)) == AltLines(m) + ["", "--" + b1 + "--"]
      case AltInlineType => (BodyLines(Layout(m)) ==
        Preamble() + PartLines(b1, [AltLeaf(m)]) + RelatedLines(m, b1, b2, "text/html") + ["", "--" + b1 + "--"])
      case AltAttachType => (BodyLines(Layout(m)) ==
        altStart + PartLines(b2, [BodyLeaf(m, "text/html", [])]) + ["", "--" + b2 + "--"] + [""] + attached)
      case AltInlineAttachType => (BodyLines(Layout(m)) ==
        altStart + RelatedLines(m, b2, b3, "text/html") + ["", "--" + b2 + "--"] + [""] + attached)
  {
    match TypeOf(m)
    case PlainType =>
    case InlineType => TopLines(m, "related", [BodyLeaf(m, m.contentType, [])], Inlines(m));
    case AttachType => TopLines(m, "mixed", [BodyLeaf(m, m.contentType, [])], Attached(m));
    case InlineAttachType =>
      RelatedIsNested(m, Boundary(m, '1'), '2', m.contentType);
      TopLines(m, "mixed", [Nested(m, "related", '2', [BodyLeaf(m, m.contentType, [])] + Inlines(m), [""])],
        Attached(m));
    case AltType => AlternativesLines(m);
    case AltInlineType => AltInlineLines(m);
    case AltAttachType =>
      BodyExtra(m, Boundary(m, '2'));
      NestedAlternative(m, BodyLeaf(m, "text/html", [""]), PartLines(Boundary(m, '2'), [BodyLeaf(m, "text/html", [])]));
    case AltInlineAttachType =>
      RelatedIsNested(m, Boundary(m, '2'), '3', "text/html");
      NestedAlternative(m, HtmlWithInlines(m, '3'), RelatedLines(m, Boundary(m, '2'), Boundary(m, '3'), "text/html"));
  }

  /** A kind of attachment that the message does not have is no obstacle. */
  lemma NoneToEncode(m: Mail)
    ensures !HasDisposition(m, "inline") ==> AttachmentsOk(m, "inline", |m.attachments|)
    ensures !HasDisposition(m, "attachment") ==> AttachmentsOk(m, "attachment", |m.attachments|)
  {
  }

  // The text of each message type, and what has to be encoded for it.

  lemma FlatText(m: Mail, disposition: string)
    requires (disposition == "inline" && TypeOf(m).InlineType?) ||
      (disposition == "attachment" && TypeOf(m).AttachType?)
    ensures BodyText(m) == Unlines(m.le, Preamble() + PartLines(Boundary(m, '1'), [BodyLeaf(m, m.contentType, [])])
      + (PartLines(Boundary(m, '1'), AttachmentParts(m, disposition, |m.attachments|)) +
        ["--" + Boundary(m, '1') + "--"]))
    ensures AllEncodable(m) <==> BodyOk(m) && AttachmentsOk(m, disposition, |m.attachments|)
  {
    LayoutLines(m);
    NoneToEncode(m);
  }

  lemma InlineAttachText(m: Mail)
    requires TypeOf(m).InlineAttachType?
    ensures BodyText(m) == Unlines(m.le, Preamble() + RelatedLines(m, Boundary(m, '1'), Boundary(m, '2'), m.contentType)
      + (PartLines(Boundary(m, '1'), Attached(m)) + ["--" + Boundary(m, '1') + "--"]))
    ensures AllEncodable(m) <==>
      BodyOk(m) && AttachmentsOk(m, "inline", |m.attachments|) && AttachmentsOk(m, "attachment", |m.attachments|)
  {
    LayoutLines(m);
  }

  lemma AltText(m: Mail)
    requires TypeOf(m).AltType?
    ensures BodyText(m) == Unlines(m.le, AltLines(m) + ["", "--" + Boundary(m, '1') + "--"])
    ensures AllEncodable(m) <==> AltOk(m) && BodyOk(m) && IcalOk(m)
  {
    LayoutLines(m);
    NoneToEncode(m);
  }

  lemma AltInlineText(m: Mail)
    requires TypeOf(m).AltInlineType?
    ensures BodyText(m) == Unlines(m.le, Preamble() + PartLines(Boundary(m, '1'), [AltLeaf(m)])
      + RelatedLines(m, Boundary(m, '1'), Boundary(m, '2'), "text/html") + ["", "--" + Boundary(m, '1') + "--"])
    ensures AllEncodable(m) <==> AltOk(m) && BodyOk(m) && AttachmentsOk(m, "inline", |m.attachments|)
  {
    LayoutLines(m);
    NoneToEncode(m);
  }

  lemma AltAttachText(m: Mail)
    requires TypeOf(m).AltAttachType?
    ensures BodyText(m) == Unlines(m.le, Preamble()
      + (["--" + Boundary(m, '1')] + NestedHeader("alternative", Boundary(m, '2')) + [""])
      + PartLines(Boundary(m, '2'), [AltLeaf(m)]) + PartLines(Boundary(m, '2'), [BodyLeaf(m, "text/html", [])])
      + ["", "--" + Boundary(m, '2') + "--"] + [""]
      + (PartLines(Boundary(m, '1'), Attached(m)) + ["--" + Boundary(m, '1') + "--"]))
    ensures AllEncodable(m) <==> AltOk(m) && BodyOk(m) && AttachmentsOk(m, "attachment", |m.attachments|)
  {
    LayoutLines(m);
    NoneToEncode(m);
  }

  lemma AltInlineAttachText(m: Mail)
    requires TypeOf(m).AltInlineAttachType?
    ensures BodyText(m) == Unlines(m.le, Preamble()
      + (["--" + Boundary(m, '1')] + NestedHeader("alternative", Boundary(m, '2')) + [""])
      + PartLines(Boundary(m, '2'), [AltLeaf(m)]) + RelatedLines(m, Boundary(m, '2'), Boundary(m, '3'), "text/html")
      + ["", "--" + Boundary(m, '2') + "--"] + [""]
      + (PartLines(Boundary(m, '1'), Attached(m)) + ["--" + Boundary(m, '1') + "--"]))
    ensures AllEncodable(m) <==>
      AltOk(m) && BodyOk(m) &&
      AttachmentsOk(m, "inline", |m.attachments|) && AttachmentsOk(m, "attachment", |m.attachments|)
  {
    LayoutLines(m);
    TextOfMulti(m);
    AllAreEncoded(m);
  }

  lemma TextOfMulti(m: Mail)
    requires Layout(m).Multi?
    ensures BodyText(m) == Unlines(m.le, BodyLines(Layout(m)))
  {
  }

  lemma AllAreEncoded(m: Mail)
    requires TypeOf(m).AltInlineAttachType?
    ensures AllEncodable(m) <==>
      AltOk(m) && BodyOk(m) &&
      AttachmentsOk(m, "inline", |m.attachments|) && AttachmentsOk(m, "attachment", |m.attachments|)
  {
  }

  lemma BlankLine(le: string, text: string, lines: seq<string>)
    requires text == Unlines(le, lines)
    ensures text + le == Unlines(le, lines + [""])
  {
    OneLine(le, "");
    assert "" + le == le;
    Grow(le, text, lines, le, [""]);
  }

  lemma ClosingLine(le: string, text: string, lines: seq<string>, boundary: string)
    requires text == Unlines(le, lines)
    ensures text + ("--" + boundary + "--" + le) == Unlines(le, lines + ["--" + boundary + "--"])
  {
    OneLine(le, "--" + boundary + "--");
    Grow(le, text, lines, "--" + boundary + "--" + le, ["--" + boundary + "--"]);
  }

  /** What one more attachment adds to the lists of the loop, to the parts and
      to what has to be encoded. */
  lemma NextAttachment(m: Mail, disposition: string, i: nat)
    requires i < |m.attachments|
    ensures var a, atts := m.attachments[i], m.attachments;
      var seen, cids := SeenBefore(atts, disposition, i), CidsBefore(atts, disposition, i);
      if a.disposition != disposition then
        && SeenBefore(atts, disposition, i + 1) == seen && CidsBefore(atts, disposition, i + 1) == cids
        && AttachmentParts(m, disposition, i + 1) == AttachmentParts(m, disposition, i)
        && (AttachmentsOk(m, disposition, i + 1) <==> AttachmentsOk(m, disposition, i))
      else
        && SeenBefore(atts, disposition, i + 1) == seen + {a} && CidsBefore(atts, disposition, i + 1) == cids + {a.cid}
        && (Survives(atts, i) <==> a !in seen && (disposition == "inline" ==> a.cid !in cids))
        && (a in seen ==> a.cid in cids)
        && (!Survives(atts, i) ==> AttachmentParts(m, disposition, i + 1) == AttachmentParts(m, disposition, i))
        && (AttachmentsOk(m, disposition, i + 1) <==>
            AttachmentsOk(m, disposition, i) && (Survives(atts, i) ==> Content(m, a).Some?))
  {
    SurvivesByLists(m.attachments, i);
  }

  // What `attachAll` has after the first `i` attachments, and its steps.

  ghost predicate Attaching(m: Mail, disposition: string, boundary: string, i: nat, incl: set<Attachment>,
      cids: set<string>, mime: string)
    requires i <= |m.attachments|
  {
    && incl == SeenBefore(m.attachments, disposition, i) && cids == CidsBefore(m.attachments, disposition, i)
    && mime == Unlines(m.le, PartLines(boundary, AttachmentParts(m, disposition, i))) &&
      AttachmentsOk(m, disposition, i)
  }

  lemma OtherPassed(m: Mail, disposition: string, boundary: string, i: nat, incl: set<Attachment>, cids: set<string>,
      mime: string)
    requires i < |m.attachments| && m.attachments[i].disposition != disposition
    requires Attaching(m, disposition, boundary, i, incl, cids, mime)
    ensures Attaching(m, disposition, boundary, i + 1, incl, cids, mime)
  {
    NextAttachment(m, disposition, i);
  }

  lemma SeenPassed(m: Mail, disposition: string, boundary: string, i: nat, incl: set<Attachment>, cids: set<string>,
      mime: string)
    requires i < |m.attachments| && m.attachments[i].disposition == disposition && m.attachments[i] in incl
    requires Attaching(m, disposition, boundary, i, incl, cids, mime)
    ensures Attaching(m, disposition, boundary, i + 1, incl, cids, mime)
  {
    NextAttachment(m, disposition, i);
    assert incl + {m.attachments[i]} == incl && cids + {m.attachments[i].cid} == cids;
  }

  lemma CidPassed(m: Mail, disposition: string, boundary: string, i: nat, incl: set<Attachment>, cids: set<string>,
      mime: string)
    requires i < |m.attachments| && m.attachments[i].disposition == disposition == "inline" &&
      m.attachments[i].cid in cids
    requires Attaching(m, disposition, boundary, i, incl, cids, mime)
    ensures Attaching(m, disposition, boundary, i + 1, incl + {m.attachments[i]}, cids, mime)
  {
    NextAttachment(m, disposition, i);
    assert cids + {m.attachments[i].cid} == cids;
  }

  lemma AttachmentAdded(m: Mail, disposition: string, boundary: string, i: nat, incl: set<Attachment>,
      cids: set<string>, mime: string,
      part: string)
    requires i < |m.attachments| && m.attachments[i].disposition == disposition && m.attachments[i] !in incl
    requires disposition == "inline" ==> m.attachments[i].cid !in cids
    requires Attaching(m, disposition, boundary, i, incl, cids, mime) && Content(m, m.attachments[i]).Some?
    requires part == Unlines(m.le, PartLines(boundary, [AttachmentLeaf(m, m.attachments[i])]))
    ensures Attaching(m, disposition, boundary, i + 1, incl + {m.attachments[i]}, cids + {m.attachments[i].cid},
      mime + part)
  {
    NextAttachment(m, disposition, i);
    NextPart(m, boundary, disposition, i, mime, part);
  }

  lemma AttachmentFailed(m: Mail, disposition: string, boundary: string, i: nat, incl: set<Attachment>,
      cids: set<string>, mime: string)
    requires i < |m.attachments| && m.attachments[i].disposition == disposition && m.attachments[i] !in incl
    requires disposition == "inline" ==> m.attachments[i].cid !in cids
    requires Attaching(m, disposition, boundary, i, incl, cids, mime) && Content(m, m.attachments[i]).None?
    ensures !AttachmentsOk(m, disposition, |m.attachments|)
  {
    NextAttachment(m, disposition, i);
  }

  lemma HeaderLines(m: Mail, boundary: string, a: Attachment)
    ensures ["--" + boundary] + Explode(m.le, TypeLine(m, a))
      + (if a.encoding != "7bit" then Explode(m.le, "Content-Transfer-Encoding: " + a.encoding) else [])
      + (if a.disposition == "inline" then Explode(m.le, "Content-ID: <" + a.cid + ">") else [])
      + Explode(m.le, DispositionLine(m, a)) + [""]
      == ["--" + boundary] + AttachmentHeader(m, a) + [""]
  {
    Assoc4Lines(["--" + boundary], Explode(m.le, TypeLine(m, a)),
      if a.encoding != "7bit" then Explode(m.le, "Content-Transfer-Encoding: " + a.encoding) else [],
      if a.disposition == "inline" then Explode(m.le, "Content-ID: <" + a.cid + ">") else [],
      Explode(m.le, DispositionLine(m, a)));
  }

  lemma Assoc4Lines(z: seq<string>, a: seq<string>, b: seq<string>, c: seq<string>, d: seq<string>)
    ensures z + a + b + c + d == z + (a + b + c + d)
  {
  }

  lemma NextPart(m: Mail, boundary: string, disposition: string, i: nat, mime: string, part: string)
    requires i < |m.attachments| && m.attachments[i].disposition == disposition && Survives(m.attachments, i)
    requires mime == Unlines(m.le, PartLines(boundary, AttachmentParts(m, disposition, i)))
    requires part == Unlines(m.le, PartLines(boundary, [AttachmentLeaf(m, m.attachments[i])]))
    ensures mime + part == Unlines(m.le, PartLines(boundary, AttachmentParts(m, disposition, i + 1)))
  {
    var before, leaf := AttachmentParts(m, disposition, i), AttachmentLeaf(m, m.attachments[i]);
    PartLinesAppend(boundary, before, [leaf]);
    Grow(m.le, mime, PartLines(boundary, before), part, PartLines(boundary, [leaf]));
  }

  /** A text and two line endings after some lines. */
  lemma ContentLines(le: LineEnding, text: string, lines: seq<string>, content: string)
    requires text == Unlines(le, lines)
    ensures text + (content + le + le) == Unlines(le, lines + (Explode(le, content) + [""]))
  {
    UnlinesExplode(le, content);
    OneLine(le, "");
    assert "" + le == le;
    Grow(le, content + le, Explode(le, content), "" + le, [""]);
    Grow(le, text, lines, content + le + le, Explode(le, content) + [""]);
  }

  lemma AttachmentLines(m: Mail, boundary: string, a: Attachment, header: string, content: string)
    requires content == ContentText(m, a)
    requires header == Unlines(m.le, ["--" + boundary] + AttachmentHeader(m, a) + [""])
    ensures header + (content + m.le + m.le) == Unlines(m.le, PartLines(boundary, [AttachmentLeaf(m, a)]))
  {
    var lines := ["--" + boundary] + AttachmentHeader(m, a) + [""];
    ContentLines(m.le, header, lines, content);
    PartLinesOne(boundary, AttachmentLeaf(m, a));
    HeaderThenBody(["--" + boundary], AttachmentHeader(m, a), Explode(m.le, content) + [""]);
  }

  lemma HeaderThenBody(delimiter: seq<string>, header: seq<string>, body: seq<string>)
    ensures delimiter + header + [""] + body == delimiter + (header + [""] + body)
  {
  }
}
