/** What a receiver gets out of a message: the fields of a header are read, and
    each leaf of the tree is decoded by the encoding its own header announces. */
module MimeContent {
  import opened Strings
  import opened Wrappers
  import opened MimeReader
  import opened MimeLayout
  import opened MimeRoundTrip

  // ---- fields of a header ------------------------------------------------------

  predicate IsIndented(line: string) {
    line != "" && (line[0] == ' ' || line[0] == '\t')
  }

  /** The number of lines at the start that continue a field. */
  function Continued(lines: seq<string>): (n: nat)
    ensures n <= |lines|
  {
    if lines == [] || !IsIndented(lines[0]) then 0 else 1 + Continued(lines[1..])
  }

  /** The first field that starts with `name`, with its continuation lines. */
  function Field(le: string, header: seq<string>, name: string): Option<string> {
    if header == [] then None
    else if name <= header[0] then Some(Implode(le, header[..1 + Continued(header[1..])]))
    else Field(le, header[1..], name)
  }

  const ENCODING_FIELD: string := "Content-Transfer-Encoding: "

  /** The encoding a header announces; 7bit when it announces none (section 6.1
      of RFC 2045). */
  function EncodingOf(le: string, header: seq<string>): string {
    var f := Field(le, header, ENCODING_FIELD);
    if f.Some? && ENCODING_FIELD <= f.value then f.value[|ENCODING_FIELD|..] else "7bit"
  }

  /** A field as lines: the first is not indented, the others are. */
  predicate IsFieldText(le: LineEnding, f: string) {
    var lines := Explode(le, f);
    !IsIndented(lines[0]) && forall i :: 1 <= i < |lines| ==> IsIndented(lines[i])
  }

  predicate StartsField(lines: seq<string>) {
    lines == [] || !IsIndented(lines[0])
  }

  lemma {:induction false} ContinuedAll(lines: seq<string>, rest: seq<string>)
    requires (forall i :: 0 <= i < |lines| ==> IsIndented(lines[i])) && StartsField(rest)
    ensures Continued(lines + rest) == |lines|
  {
    if lines == [] {
      assert lines + rest == rest;
    } else {
      assert (lines + rest)[0] == lines[0] && (lines + rest)[1..] == lines[1..] + rest;
      ContinuedAll(lines[1..], rest);
    }
  }

  lemma FieldHere(le: LineEnding, f: string, rest: seq<string>, name: string)
    requires IsFieldText(le, f) && StartsField(rest) && name <= Explode(le, f)[0]
    ensures Field(le, Explode(le, f) + rest, name) == Some(f)
  {
    var lines := Explode(le, f);
    var all := lines + rest;
    assert all[0] == lines[0] && all[1..] == lines[1..] + rest;
    ContinuedAll(lines[1..], rest);
    assert all[..|lines|] == lines;
    ImplodeExplode(le, f);
  }

  lemma {:induction false} SkipLines(le: string, lines: seq<string>, rest: seq<string>, name: string)
    requires forall i :: 0 <= i < |lines| ==> !(name <= lines[i])
    ensures Field(le, lines + rest, name) == Field(le, rest, name)
  {
    if lines == [] {
      assert lines + rest == rest;
    } else {
      assert (lines + rest)[0] == lines[0] && (lines + rest)[1..] == lines[1..] + rest;
      SkipLines(le, lines[1..], rest, name);
    }
  }

  lemma SkipField(le: LineEnding, f: string, rest: seq<string>, name: string)
    requires IsFieldText(le, f) && name != "" && !IsIndented(name) && !(name <= Explode(le, f)[0])
    ensures Field(le, Explode(le, f) + rest, name) == Field(le, rest, name)
  {
    var lines := Explode(le, f);
    forall i | 0 <= i < |lines| ensures !(name <= lines[i]) {
      if i > 0 { assert lines[i][0] != name[0]; }
    }
    SkipLines(le, lines, rest, name);
  }

  /** A field with a folded value. */
  lemma FoldedField(le: LineEnding, name: string, value: string, end: string)
    requires BreakFree(name) && name != "" && !IsIndented(name) && IsFolded(le, value) && BreakFree(end)
    ensures IsFieldText(le, name + value + end) && name <= Explode(le, name + value + end)[0]
  {
    ExplodePrefix(le, name, value);
    ExplodeSuffix(le, name + value, end);
    var lines := Explode(le, name + value);
    var all := AddToLast(lines, end);
    assert name <= lines[0];
    assert lines[0] <= all[0];
    forall i | 1 <= i < |all| ensures " " <= all[i] {
      assert lines[i] == Explode(le, value)[i] && lines[i][0] == ' ';
    }
    assert all[0][0] == name[0];
  }

  lemma OneLineField(le: LineEnding, f: string)
    requires BreakFree(f) && !IsIndented(f)
    ensures IsFieldText(le, f) && Explode(le, f) == [f]
  {
    OneLineIs(le, f);
  }

  // ---- the headers of the leaves ---------------------------------------------------

  lemma TypeIsNoEncoding(line: string)
    requires "Content-Type: " <= line
    ensures !(ENCODING_FIELD <= line)
  {
    assert line[9] == "Content-Type: "[9] == 'y' && ENCODING_FIELD[9] == 'r';
  }

  /** The header of a text announces its type, its character set and its encoding. */
  lemma TextHeaderSays(le: LineEnding, contentType: string, charSet: string, encoding: string)
    requires BreakFree(contentType) && BreakFree(charSet) && BreakFree(encoding)
    ensures var header := LeafHeader(contentType, charSet, encoding);
      && header != [] && header[0] == "Content-Type: " + contentType + "; charset=" + charSet
      && EncodingOf(le, header) == encoding
  {
    var typeLine, line := "Content-Type: " + contentType + "; charset=" + charSet, ENCODING_FIELD + encoding;
    assert "Content-Type: " <= typeLine;
    TypeIsNoEncoding(typeLine);
    OneLineField(le, typeLine);
    var rest := if encoding != "7bit" then [line] else [];
    SkipField(le, typeLine, rest, ENCODING_FIELD);
    if encoding != "7bit" {
      OneLineField(le, line);
      assert [line] + [] == [line];
      FieldHere(le, line, [], ENCODING_FIELD);
      assert line[|ENCODING_FIELD|..] == encoding;
    }
  }

  lemma TypeIsField(m: Mail, a: Attachment)
    requires BreakFree(a.mime) && IsFolded(m.le, m.env.encodeName(a.name))
    ensures IsFieldText(m.le, TypeLine(m, a)) && "Content-Type: " <= Explode(m.le, TypeLine(m, a))[0]
  {
    var field := "Content-Type: " + a.mime;
    if IsEmptyName(a.name) {
      OneLineField(m.le, field);
      assert field + "" == field;
    } else {
      FoldedField(m.le, field + "; name=\"", m.env.encodeName(a.name), "\"");
      assert field + "; name=\"" + m.env.encodeName(a.name) + "\"" == TypeLine(m, a);
      assert "Content-Type: " <= field + "; name=\"";
    }
  }

  lemma DispositionIsField(m: Mail, a: Attachment)
    requires BreakFree(a.disposition) && IsFolded(m.le, m.env.encodeName(a.name))
    ensures IsFieldText(m.le, DispositionLine(m, a))
    ensures "Content-Disposition: " <= Explode(m.le, DispositionLine(m, a))[0]
  {
    var name := m.env.encodeName(a.name);
    var field := DispositionField(a.disposition);
    if NeedsQuotes(name) {
      NamedDisposition(m.le, field, "; filename=\"", name, "\"");
    } else if IsEmptyName(name) {
      OneLineField(m.le, field);
      assert field + "" == field;
    } else {
      NamedDisposition(m.le, field, "; filename=", name, "");
      assert field + "; filename=" + name + "" == field + ("; filename=" + name);
    }
  }

  lemma DispositionField(disposition: string) returns (field: string)
    requires BreakFree(disposition)
    ensures field == "Content-Disposition: " + disposition && BreakFree(field) && "Content-Disposition: " <= field
    ensures !IsIndented(field)
  {
    field := "Content-Disposition: " + disposition;
    assert BreakFree("Content-Disposition: ");
  }

  lemma NamedDisposition(le: LineEnding, field: string, parameter: string, name: string, end: string)
    requires BreakFree(field) && "Content-Disposition: " <= field && BreakFree(parameter) && IsFolded(le, name) &&
      BreakFree(end)
    ensures var f := field + parameter + name + end;
      IsFieldText(le, f) && "Content-Disposition: " <= Explode(le, f)[0]
    ensures field + parameter + name + end == field + (parameter + name + end)
  {
    FoldedField(le, field + parameter, name, end);
    assert "Content-Disposition: " <= field + parameter;
  }

  /** The names of the four fields differ. */
  lemma FieldNames(line: string)
    ensures "Content-Type: " <= line ==>
      !(ENCODING_FIELD <= line) && !("Content-ID: " <= line) && !("Content-Disposition: " <= line)
    ensures ENCODING_FIELD <= line ==>
      !("Content-Type: " <= line) && !("Content-ID: " <= line) && !("Content-Disposition: " <= line)
    ensures "Content-ID: " <= line ==>
      !("Content-Type: " <= line) && !(ENCODING_FIELD <= line) && !("Content-Disposition: " <= line)
  {
    assert "Content-Type: "[8] == 'T' && "Content-Type: "[9] == 'y' && ENCODING_FIELD[8] == 'T' &&
      ENCODING_FIELD[9] == 'r';
    assert "Content-ID: "[8] == 'I' && "Content-Disposition: "[8] == 'D';
  }

  /** The file name: quoted when it needs quotes, and left out when it is empty. */
  function FileNameText(name: string): (r: string)
    ensures (exists c :: c in name && c in " ()<>@,;:\"/[]?=") ==> r == "; filename=\"" + name + "\""
    ensures (forall c :: c in name ==> c !in " ()<>@,;:\"/[]?=") && name != "" && name != "0" ==>
      r == "; filename=" + name
    ensures name == "" || name == "0" ==> r == ""
  {
    if NeedsQuotes(name) then "; filename=\"" + name + "\"" else if IsEmptyName(name) then "" else "; filename=" + name
  }

  /** What a receiver reads from the header of an attachment: its type and name, its
      encoding, its content id if it is inline, its disposition and file name. */
  lemma AttachmentHeaderSays(m: Mail, a: Attachment)
    requires BreakFree(a.mime) && BreakFree(a.encoding) && BreakFree(a.cid) && BreakFree(a.disposition)
    requires IsFolded(m.le, m.env.encodeName(a.name))
    ensures var header, name := AttachmentHeader(m, a), m.env.encodeName(a.name);
      && Field(m.le, header, "Content-Type: ") == Some("Content-Type: " + a.mime +
           (if a.name == "" || a.name == "0" then "" else "; name=\"" + name + "\""))
      && EncodingOf(m.le, header) == a.encoding
      && Field(m.le, header, "Content-ID: ") ==
        (if a.disposition == "inline" then Some("Content-ID: <" + a.cid + ">") else None)
      && Field(m.le, header, "Content-Disposition: ") == Some("Content-Disposition: " + a.disposition +
           FileNameText(name))
  {
    TypeIsField(m, a);
    DispositionIsField(m, a);
    var e := EncodingLine(m.le, a);
    var i := IdLine(m.le, a);
    FieldsAreRead(m.le, TypeLine(m, a), e, a.encoding != "7bit", i, a.disposition == "inline", DispositionLine(m, a));
  }

  lemma EncodingLine(le: LineEnding, a: Attachment) returns (e: string)
    requires BreakFree(a.encoding)
    ensures e == "Content-Transfer-Encoding: " + a.encoding && ENCODING_FIELD <= e &&
      e[|ENCODING_FIELD|..] == a.encoding
    ensures IsFieldText(le, e) && ENCODING_FIELD <= Explode(le, e)[0]
  {
    e := ENCODING_FIELD + a.encoding;
    OneLineField(le, e);
  }

  lemma IdLine(le: LineEnding, a: Attachment) returns (i: string)
    requires BreakFree(a.cid)
    ensures i == "Content-ID: <" + a.cid + ">" && IsFieldText(le, i) && "Content-ID: " <= Explode(le, i)[0]
  {
    i := "Content-ID: <" + a.cid + ">";
    OneLineField(le, i);
  }

  /** Four fields, of which the second and the third may be missing. */
  lemma FieldsAreRead(le: LineEnding, t: string, e: string, hasE: bool, i: string, hasI: bool, d: string)
    requires IsFieldText(le, t) && "Content-Type: " <= Explode(le, t)[0]
    requires IsFieldText(le, e) && ENCODING_FIELD <= Explode(le, e)[0]
    requires IsFieldText(le, i) && "Content-ID: " <= Explode(le, i)[0]
    requires IsFieldText(le, d) && "Content-Disposition: " <= Explode(le, d)[0]
    ensures var header := Explode(le, t) + (if hasE then Explode(le, e) else []) + (if hasI then Explode(le, i) else [])
        + Explode(le, d);
      && Field(le, header, "Content-Type: ") == Some(t)
      && Field(le, header, ENCODING_FIELD) == (if hasE then Some(e) else None)
      && Field(le, header, "Content-ID: ") == (if hasI then Some(i) else None)
      && Field(le, header, "Content-Disposition: ") == Some(d)
  {
    var E, I := if hasE then Explode(le, e) else [], if hasI then Explode(le, i) else [];
    SecondField(le, e, hasE, i, hasI, d);
    FirstField(le, t, E + (I + (Explode(le, d) + [])));
    FourParts(Explode(le, t), E, I, Explode(le, d));
  }

  lemma FourParts(t: seq<string>, e: seq<string>, i: seq<string>, d: seq<string>)
    ensures t + e + i + d == t + (e + (i + (d + [])))
  {
  }

  /** The first of the four fields, before any others. */
  lemma FirstField(le: LineEnding, t: string, rest: seq<string>)
    requires IsFieldText(le, t) && "Content-Type: " <= Explode(le, t)[0] && StartsField(rest)
    ensures var all := Explode(le, t) + rest;
      && Field(le, all, "Content-Type: ") == Some(t)
      && Field(le, all, ENCODING_FIELD) == Field(le, rest, ENCODING_FIELD)
      && Field(le, all, "Content-ID: ") == Field(le, rest, "Content-ID: ")
      && Field(le, all, "Content-Disposition: ") == Field(le, rest, "Content-Disposition: ")
  {
    FieldNames(Explode(le, t)[0]);
    FieldHere(le, t, rest, "Content-Type: ");
    SkipField(le, t, rest, ENCODING_FIELD);
    SkipField(le, t, rest, "Content-ID: ");
    SkipField(le, t, rest, "Content-Disposition: ");
  }

  lemma LastField(le: LineEnding, d: string)
    requires IsFieldText(le, d) && "Content-Disposition: " <= Explode(le, d)[0]
    ensures var rest := Explode(le, d) + [];
      && StartsField(rest) && Field(le, rest, ENCODING_FIELD) == None && Field(le, rest, "Content-ID: ") == None
      && Field(le, rest, "Content-Disposition: ") == Some(d)
  {
    FieldNames(Explode(le, d)[0]);
    FieldHere(le, d, [], "Content-Disposition: ");
    SkipField(le, d, [], ENCODING_FIELD);
    SkipField(le, d, [], "Content-ID: ");
  }

  lemma ThirdField(le: LineEnding, i: string, hasI: bool, d: string)
    requires IsFieldText(le, i) && "Content-ID: " <= Explode(le, i)[0]
    requires IsFieldText(le, d) && "Content-Disposition: " <= Explode(le, d)[0]
    ensures var rest := (if hasI then Explode(le, i) else []) + (Explode(le, d) + []);
      && StartsField(rest) && Field(le, rest, ENCODING_FIELD) == None
      && Field(le, rest, "Content-ID: ") == (if hasI then Some(i) else None)
      && Field(le, rest, "Content-Disposition: ") == Some(d)
  {
    LastField(le, d);
    FieldNames(Explode(le, i)[0]);
    var D := Explode(le, d) + [];
    if hasI {
      FieldHere(le, i, D, "Content-ID: ");
      SkipField(le, i, D, ENCODING_FIELD);
      SkipField(le, i, D, "Content-Disposition: ");
    } else {
      assert [] + D == D;
    }
  }

  lemma SecondField(le: LineEnding, e: string, hasE: bool, i: string, hasI: bool, d: string)
    requires IsFieldText(le, e) && ENCODING_FIELD <= Explode(le, e)[0]
    requires IsFieldText(le, i) && "Content-ID: " <= Explode(le, i)[0]
    requires IsFieldText(le, d) && "Content-Disposition: " <= Explode(le, d)[0]
    ensures var rest := (if hasE then Explode(le, e) else []) +
      ((if hasI then Explode(le, i) else []) + (Explode(le, d) + []));
      && StartsField(rest) && Field(le, rest, ENCODING_FIELD) == (if hasE then Some(e) else None)
      && Field(le, rest, "Content-ID: ") == (if hasI then Some(i) else None)
      && Field(le, rest, "Content-Disposition: ") == Some(d)
  {
    ThirdField(le, i, hasI, d);
    FieldNames(Explode(le, e)[0]);
    var R := (if hasI then Explode(le, i) else []) + (Explode(le, d) + []);
    if hasE {
      FieldHere(le, e, R, ENCODING_FIELD);
      SkipField(le, e, R, "Content-ID: ");
      SkipField(le, e, R, "Content-Disposition: ");
    } else {
      assert [] + R == R;
    }
  }

  // ---- the contents of the leaves ---------------------------------------------------

  /** Decoding the body of a leaf, up to blank lines at its end, by the announced
      encoding gives the text. */
  ghost predicate Carries(le: LineEnding, decode: (string, string) -> string, leaf: Entity, text: string) {
    leaf.Leaf? && exists n: nat :: DecodesTo(le, decode, leaf, n, text)
  }

  /** All but at most two blank lines after the first `n` lines. */
  ghost predicate DecodesTo(le: LineEnding, decode: (string, string) -> string, leaf: Entity, n: nat, text: string)
    requires leaf.Leaf?
  {
    && n <= |leaf.body| <= n + 2 && (forall i :: n <= i < |leaf.body| ==> leaf.body[i] == "")
    && decode(Implode(le, leaf.body[..n]), EncodingOf(le, leaf.header)) == text
  }

  ghost predicate CarryAll(le: LineEnding, decode: (string, string) -> string, leaves: seq<Entity>,
      texts: seq<string>) {
    |leaves| == |texts| && forall i :: 0 <= i < |leaves| ==> Carries(le, decode, leaves[i], texts[i])
  }

  lemma CarryAppend(le: LineEnding, decode: (string, string) -> string, a: seq<Entity>, s: seq<string>,
      b: seq<Entity>, t: seq<string>)
    requires CarryAll(le, decode, a, s) && CarryAll(le, decode, b, t)
    ensures CarryAll(le, decode, a + b, s + t)
  {
  }

  lemma CarryOne(le: LineEnding, decode: (string, string) -> string, leaf: Entity, text: string)
    requires Carries(le, decode, leaf, text)
    ensures CarryAll(le, decode, [leaf], [text])
  {
  }

  /** An encoded text and some blank lines. */
  lemma LeafCarries(le: LineEnding, decode: (string, string) -> string, header: seq<string>, encoded: string,
      blanks: seq<string>, text: string)
    requires |blanks| <= 2 && (forall i :: 0 <= i < |blanks| ==> blanks[i] == "")
    requires decode(encoded, EncodingOf(le, header)) == text
    ensures Carries(le, decode, Leaf(header, Explode(le, encoded) + blanks), text)
  {
    var lines := Explode(le, encoded);
    var n, body := |lines|, lines + blanks;
    ImplodeExplode(le, encoded);
    assert body[..n] == lines;
    assert forall i :: n <= i < |body| ==> body[i] == blanks[i - n];
    assert DecodesTo(le, decode, Leaf(header, body), n, text);
  }

  /** `decode` takes back what `encode` makes of the texts of the message. */
  ghost predicate Inverts(m: Mail, decode: (string, string) -> string) {
    forall t, e :: t in Said(m) && m.env.encode(t, e).Some? ==> decode(m.env.encode(t, e).value, e) == t
  }

  function DataOf(m: Mail, a: Attachment): string {
    if a.isString then a.data
    else if m.env.readFile(a.data).Some? then m.env.readFile(a.data).value else ""
  }

  /** The data of the surviving attachments of one disposition, in their order. */
  function Datas(m: Mail, disposition: string, n: nat): seq<string>
    requires n <= |m.attachments|
  {
    if n == 0 then []
    else
      Datas(m, disposition, n - 1) +
      (if m.attachments[n - 1].disposition == disposition && Survives(m.attachments, n - 1)
       then [DataOf(m, m.attachments[n - 1])] else [])
  }

  /** The texts of the message: the alternative body, the body, and in a message
      without attachments the event that goes with an alternative body. */
  function Bodies(m: Mail): seq<string> {
    (if HasAlternative(m) then [m.altBody] else []) + [m.body] +
    (if HasAlternative(m) && !HasDisposition(m, "inline") && !HasDisposition(m, "attachment") &&
      HasIcal(m) then [m.ical] else [])
  }

  /** All that is said in the message. */
  function Said(m: Mail): seq<string> {
    Bodies(m) + Datas(m, "inline", |m.attachments|) + Datas(m, "attachment", |m.attachments|)
  }

  lemma TextLeafCarries(m: Mail, decode: (string, string) -> string, contentType: string, charSet: string,
      encoding: string,
      text: string, extra: seq<string>)
    requires Inverts(m, decode) && text in Said(m) && m.env.encode(text, encoding).Some? &&
      (extra == [] || extra == [""])
    requires BreakFree(contentType) && BreakFree(charSet) && BreakFree(encoding)
    ensures Carries(m.le, decode, TextLeaf(m, contentType, charSet, encoding, text, extra), text)
  {
    TextHeaderSays(m.le, contentType, charSet, encoding);
    LeafCarries(m.le, decode, LeafHeader(contentType, charSet, encoding), Encoded(m, text, encoding), [""] + extra,
      text);
    assert Explode(m.le, Encoded(m, text, encoding)) + ([""] + extra) ==
      Explode(m.le, Encoded(m, text, encoding)) + [""] + extra;
  }

  lemma SoundSettings(m: Mail)
    requires IsSound(m)
    ensures BreakFree(m.charSet) && BreakFree(m.encoding)
  {
  }

  lemma BodyCarries(m: Mail, decode: (string, string) -> string, contentType: string, extra: seq<string>)
    requires IsSound(m) && Inverts(m, decode) && BodyOk(m) && BreakFree(contentType) && (extra == [] || extra == [""])
    ensures Carries(m.le, decode, BodyLeaf(m, contentType, extra), m.body)
  {
    SoundSettings(m);
    TextChoices(m, m.body);
    BodiesAreSaid(m);
    TextLeafCarries(m, decode, contentType, TextCharSet(m, m.body), TextEncoding(m, m.body), m.body, extra);
  }

  lemma AltCarries(m: Mail, decode: (string, string) -> string)
    requires IsSound(m) && HasAlternative(m) && Inverts(m, decode) && AltOk(m)
    ensures Carries(m.le, decode, AltLeaf(m), m.altBody)
  {
    SoundSettings(m);
    TextChoices(m, m.altBody);
    BodiesAreSaid(m);
    TextLeafCarries(m, decode, "text/plain", TextCharSet(m, m.altBody), TextEncoding(m, m.altBody), m.altBody, []);
  }

  lemma IcalCarries(m: Mail, decode: (string, string) -> string)
    requires IsSound(m) && TypeOf(m).AltType? && HasIcal(m) && Inverts(m, decode) && IcalOk(m)
    ensures Carries(m.le, decode, IcalLeaf(m), m.ical)
  {
    SoundSettings(m);
    BodiesAreSaid(m);
    TextLeafCarries(m, decode, "text/calendar; method=REQUEST", m.charSet, m.encoding, m.ical, [""]);
  }

  lemma BodiesAreSaid(m: Mail)
    ensures m.body in Said(m) && (HasAlternative(m) ==> m.altBody in Said(m))
    ensures TypeOf(m).AltType? && HasIcal(m) ==> m.ical in Said(m)
  {
    var b := Bodies(m);
    assert m.body in b && (HasAlternative(m) ==> m.altBody in b) && (TypeOf(m).AltType? && HasIcal(m) ==> m.ical in b);
    assert forall x :: x in b ==> x in Said(m);
  }

  lemma AttachmentCarries(m: Mail, decode: (string, string) -> string, a: Attachment)
    requires IsSoundAttachment(m, a) && BreakFree(a.disposition) && Inverts(m, decode)
    requires DataOf(m, a) in Said(m) && Content(m, a).Some?
    ensures Carries(m.le, decode, AttachmentLeaf(m, a), DataOf(m, a))
  {
    AttachmentHeaderSays(m, a);
    assert m.env.encode(DataOf(m, a), a.encoding) == Content(m, a);
    LeafCarries(m.le, decode, AttachmentHeader(m, a), ContentText(m, a), [""], DataOf(m, a));
  }

  lemma {:induction false} DatasAreSaid(m: Mail, disposition: string, n: nat, i: nat)
    requires i < n <= |m.attachments| && m.attachments[i].disposition == disposition && Survives(m.attachments, i)
    ensures DataOf(m, m.attachments[i]) in Datas(m, disposition, n)
  {
    if i < n - 1 { DatasAreSaid(m, disposition, n - 1, i); }
  }

  lemma DataIsSaid(m: Mail, disposition: string, i: nat)
    requires i < |m.attachments| && (disposition == "inline" || disposition == "attachment")
    requires m.attachments[i].disposition == disposition && Survives(m.attachments, i)
    ensures DataOf(m, m.attachments[i]) in Said(m)
  {
    DatasAreSaid(m, disposition, |m.attachments|, i);
  }

  lemma AttachmentsCarry(m: Mail, decode: (string, string) -> string, disposition: string)
    requires IsSound(m) && Inverts(m, decode) && (disposition == "inline" || disposition == "attachment")
    requires AttachmentsOk(m, disposition, |m.attachments|)
    ensures CarryAll(m.le, decode, AttachmentParts(m, disposition, |m.attachments|),
      Datas(m, disposition, |m.attachments|))
  {
    for n := 0 to |m.attachments|
      invariant CarryAll(m.le, decode, AttachmentParts(m, disposition, n), Datas(m, disposition, n))
    {
      NextCarries(m, decode, disposition, n);
    }
  }

  lemma NextCarries(m: Mail, decode: (string, string) -> string, disposition: string, n: nat)
    requires IsSound(m) && Inverts(m, decode) && (disposition == "inline" || disposition == "attachment")
    requires n < |m.attachments| && AttachmentsOk(m, disposition, |m.attachments|)
    requires CarryAll(m.le, decode, AttachmentParts(m, disposition, n), Datas(m, disposition, n))
    ensures CarryAll(m.le, decode, AttachmentParts(m, disposition, n + 1), Datas(m, disposition, n + 1))
  {
    var a := m.attachments[n];
    NextPrinted(m, disposition, n);
    if a.disposition == disposition && Survives(m.attachments, n) {
      PrintedCarries(m, decode, disposition, n);
      CarryOne(m.le, decode, AttachmentLeaf(m, a), DataOf(m, a));
      CarryAppend(m.le, decode, AttachmentParts(m, disposition, n), Datas(m, disposition, n), [AttachmentLeaf(m, a)],
        [DataOf(m, a)]);
    }
  }

  lemma NextPrinted(m: Mail, disposition: string, n: nat)
    requires n < |m.attachments|
    ensures var a := m.attachments[n]; var kept := a.disposition == disposition && Survives(m.attachments, n);
      && AttachmentParts(m, disposition, n + 1) ==
           AttachmentParts(m, disposition, n) + (if kept then [AttachmentLeaf(m, a)] else [])
      && Datas(m, disposition, n + 1) == Datas(m, disposition, n) + (if kept then [DataOf(m, a)] else [])
  {
  }

  lemma PrintedCarries(m: Mail, decode: (string, string) -> string, disposition: string, n: nat)
    requires IsSound(m) && Inverts(m, decode) && (disposition == "inline" || disposition == "attachment")
    requires n < |m.attachments| && AttachmentsOk(m, disposition, |m.attachments|)
    requires m.attachments[n].disposition == disposition && Survives(m.attachments, n)
    ensures Carries(m.le, decode, AttachmentLeaf(m, m.attachments[n]), DataOf(m, m.attachments[n]))
  {
    PrintedIsSound(m, n);
    DataIsSaid(m, disposition, n);
    AttachmentCarries(m, decode, m.attachments[n]);
  }

  /** The bodies, by message type. */
  lemma BodiesCarried(m: Mail, decode: (string, string) -> string)
    requires IsSound(m) && Inverts(m, decode) && AllEncodable(m)
    ensures CarryAll(m.le, decode, Texts(m), Bodies(m))
  {
    if HasAlternative(m) { AlternativeCarried(m, decode); } else { PlainCarried(m, decode); }
  }

  lemma PlainCarried(m: Mail, decode: (string, string) -> string)
    requires IsSound(m) && Inverts(m, decode) && AllEncodable(m) && !HasAlternative(m)
    ensures CarryAll(m.le, decode, Texts(m), Bodies(m))
  {
    if TypeOf(m).PlainType? {
      SoundSettings(m);
      TextChoices(m, m.body);
      BodiesAreSaid(m);
      TextHeaderSays(m.le, m.contentType, m.charSet, TextEncoding(m, m.body));
      var encoded := Encoded(m, m.body, TextEncoding(m, m.body));
      LeafCarries(m.le, decode, PlainHeader(m), encoded, [], m.body);
      assert Explode(m.le, encoded) + [] == Explode(m.le, encoded);
      CarryOne(m.le, decode, Layout(m), m.body);
    } else {
      BodyCarries(m, decode, m.contentType, []);
      CarryOne(m.le, decode, BodyLeaf(m, m.contentType, []), m.body);
    }
    assert Bodies(m) == [m.body];
  }

  lemma AlternativeCarried(m: Mail, decode: (string, string) -> string)
    requires IsSound(m) && Inverts(m, decode) && AllEncodable(m) && HasAlternative(m)
    ensures CarryAll(m.le, decode, Texts(m), Bodies(m))
  {
    AltCarries(m, decode);
    var extra := if TypeOf(m).AltAttachType? || (TypeOf(m).AltType? && !HasIcal(m)) then [""] else [];
    BodyCarries(m, decode, "text/html", extra);
    if TypeOf(m).AltType? && HasIcal(m) {
      IcalCarries(m, decode);
      EventCarried(m, decode);
    } else {
      PairCarried(m, decode, extra);
    }
  }

  lemma PairCarried(m: Mail, decode: (string, string) -> string, extra: seq<string>)
    requires HasAlternative(m) && !(TypeOf(m).AltType? && HasIcal(m))
    requires extra == if TypeOf(m).AltAttachType? || TypeOf(m).AltType? then [""] else []
    requires Carries(m.le, decode, AltLeaf(m), m.altBody)
    requires Carries(m.le, decode, BodyLeaf(m, "text/html", extra), m.body)
    ensures CarryAll(m.le, decode, Texts(m), Bodies(m))
  {
    CarryTwo(m.le, decode, AltLeaf(m), m.altBody, BodyLeaf(m, "text/html", extra), m.body);
    assert Texts(m) == [AltLeaf(m), BodyLeaf(m, "text/html", extra)] && Bodies(m) == [m.altBody, m.body];
  }

  lemma EventCarried(m: Mail, decode: (string, string) -> string)
    requires TypeOf(m).AltType? && HasIcal(m)
    requires Carries(m.le, decode, AltLeaf(m), m.altBody)
    requires Carries(m.le, decode, BodyLeaf(m, "text/html", []), m.body) && Carries(m.le, decode, IcalLeaf(m), m.ical)
    ensures CarryAll(m.le, decode, Texts(m), Bodies(m))
  {
    var html := BodyLeaf(m, "text/html", []);
    CarryTwo(m.le, decode, AltLeaf(m), m.altBody, html, m.body);
    CarryOne(m.le, decode, IcalLeaf(m), m.ical);
    CarryAppend(m.le, decode, [AltLeaf(m), html], [m.altBody, m.body], [IcalLeaf(m)], [m.ical]);
    assert Bodies(m) == [m.altBody, m.body] + [m.ical] && Texts(m) == [AltLeaf(m), html] + [IcalLeaf(m)];
  }

  lemma CarryTwo(le: LineEnding, decode: (string, string) -> string, a: Entity, s: string, b: Entity, t: string)
    requires Carries(le, decode, a, s) && Carries(le, decode, b, t)
    ensures CarryAll(le, decode, [a, b], [s, t])
  {
  }

  lemma SameLeaves(m: Mail)
    ensures Leaves(Received(m)) == Leaves(Layout(m))
  {
  }

  /** A receiver that decodes each leaf by the encoding its header announces gets
      the bodies, the event and the data of each surviving attachment, in order. */
  lemma ReceiverGetsContent(m: Mail, decode: (string, string) -> string)
    requires IsSound(m) && AllEncodable(m) && Inverts(m, decode)
    ensures CarryAll(m.le, decode, Leaves(Received(m)), Said(m))
  {
    SameLeaves(m);
    LayoutLeaves(m);
    BodiesCarried(m, decode);
    AttachmentsCarry(m, decode, "inline");
    AttachmentsCarry(m, decode, "attachment");
    var i, a := Datas(m, "inline", |m.attachments|), Datas(m, "attachment", |m.attachments|);
    CarryAppend(m.le, decode, Texts(m), Bodies(m), Inlines(m), i);
    CarryAppend(m.le, decode, Texts(m) + Inlines(m), Bodies(m) + i, Attached(m), a);
  }

  /** The reader of the text that is sent gets them too. */
  lemma SentContentIsRead(m: Mail, decode: (string, string) -> string)
    requires IsSound(m) && AllEncodable(m) && Inverts(m, decode)
    ensures var e := Read(Explode(m.le, MessageText(m)));
      e.Some? && CarryAll(m.le, decode, Leaves(e.value), Said(m))
  {
    SentIsReceived(m);
    ReceiverGetsContent(m, decode);
  }

  // ---- what is said, and how ----------------------------------------------------------

  /** The texts, in terms of the fields of the message. */
  lemma WhatIsSaid(m: Mail)
    ensures var said := Said(m);
      if m.altBody != "" && m.altBody != "0" then |said| >= 2 && said[0] == m.altBody && said[1] == m.body
      else |said| >= 1 && said[0] == m.body
    ensures m.altBody != "" && m.altBody != "0" && m.ical != "" && m.ical != "0" && m.attachments == [] ==>
      Said(m) == [m.altBody, m.body, m.ical]
    ensures m.altBody != "" && m.altBody != "0" && (m.ical == "" || m.ical == "0") && m.attachments == [] ==>
      Said(m) == [m.altBody, m.body]
    ensures (m.altBody == "" || m.altBody == "0") && m.attachments == [] ==> Said(m) == [m.body]
  {
    var b := Bodies(m);
    if HasAlternative(m) {
      assert b[0] == m.altBody && b[1] == m.body;
    } else {
      assert b == [m.body];
    }
    assert Said(m)[..|b|] == b;
    if m.attachments == [] { assert Said(m) == b; }
  }

  /** Which attachments are said: of two of a disposition that agree in
      everything, or that are inline with one content id, only the first. */
  lemma SaidOnce(m: Mail, i: nat, j: nat)
    requires i < j < |m.attachments| && m.attachments[i].disposition == m.attachments[j].disposition
    ensures m.attachments[i] == m.attachments[j] ==> !Survives(m.attachments, j)
    ensures m.attachments[i].disposition == "inline" && m.attachments[i].cid == m.attachments[j].cid ==>
      !Survives(m.attachments, j)
  {
    if m.attachments[i].disposition != "inline" || m.attachments[i].cid != m.attachments[j].cid {
      if m.attachments[i] == m.attachments[j] { assert !Survives(m.attachments, j); }
    }
  }

  /** An attachment unlike all before it is said. */
  lemma UnlikeIsSaid(m: Mail, i: nat)
    requires i < |m.attachments| && m.attachments[i].disposition in ["inline", "attachment"]
    requires forall j :: 0 <= j < i && m.attachments[j].disposition == m.attachments[i].disposition ==>
      if m.attachments[i].disposition == "inline" then m.attachments[j].cid != m.attachments[i].cid
      else m.attachments[j] != m.attachments[i]
    ensures DataOf(m, m.attachments[i]) in Said(m)
  {
    DataIsSaid(m, m.attachments[i].disposition, i);
  }

  /** The encoding chosen for a text: one that allows long lines for a text
      that has them, 7bit for plain ASCII that would be sent as 8bit, and else that of the message. */
  lemma EncodingFits(m: Mail, text: string)
    ensures var lines := Explode("\n", text);
      TextEncoding(m, text) !in ["base64", "quoted-printable"] ==> forall i :: 0 <= i < |lines| ==> |lines[i]| < 1000
    ensures var lines := Explode("\n", text);
      (m.encoding == "base64" || forall i :: 0 <= i < |lines| ==> |lines[i]| < 1000) ==>
        TextEncoding(m, text) ==
          (if m.encoding == "8bit" && forall i :: 0 <= i < |text| ==> text[i] as int < 128 then "7bit" else m.encoding)
    ensures var lines := Explode("\n", text);
      m.encoding != "base64" && (exists i :: 0 <= i < |lines| && |lines[i]| >= 1000) ==>
        TextEncoding(m, text) == "quoted-printable"
    ensures m.encoding == "8bit" && (forall i :: 0 <= i < |text| ==> text[i] as int < 128) ==>
      TextCharSet(m, text) == "us-ascii"
    ensures m.encoding != "8bit" || (exists i :: 0 <= i < |text| && text[i] as int >= 128) ==>
      TextCharSet(m, text) == m.charSet
  {
    if m.encoding == "base64" { assert m.encoding[0] != "8bit"[0]; }
    assert "7bit"[0] == '7' && "quoted-printable"[0] == 'q';
  }

  /** The line for a type and a character set. */
  function TypeText(contentType: string, charSet: string): string {
    "Content-Type: " + contentType + "; charset=" + charSet
  }

  /** A header announces this type and character set, and this encoding. */
  lemma LeafSays(m: Mail, leaf: Entity, contentType: string, charSet: string, encoding: string)
    requires BreakFree(contentType) && BreakFree(charSet) && BreakFree(encoding)
    requires leaf.header == LeafHeader(contentType, charSet, encoding)
    ensures Announced(m.le, leaf) == (TypeText(contentType, charSet), encoding)
  {
    TextHeaderSays(m.le, contentType, charSet, encoding);
  }

  /** The first line and the encoding of a header. */
  function Announced(le: LineEnding, leaf: Entity): (string, string) {
    (if leaf.header == [] then "" else leaf.header[0], EncodingOf(le, leaf.header))
  }

  /** What the headers of the texts announce: in an alternative, plain text, then
      HTML, then an event with the settings of the message; else the type of the message. */
  lemma TextsSay(m: Mail)
    requires BreakFree(m.charSet) && BreakFree(m.encoding) && BreakFree(m.contentType)
    ensures var body := TextEncoding(m, m.body);
      if m.altBody != "" && m.altBody != "0" then
        && |Texts(m)| >= 2
        && Announced(m.le, Texts(m)[0]) ==
          (TypeText("text/plain", TextCharSet(m, m.altBody)), TextEncoding(m, m.altBody))
        && Announced(m.le, Texts(m)[1]) == (TypeText("text/html", TextCharSet(m, m.body)), body)
      else
        && |Texts(m)| == 1
        && (m.attachments == [] ==> Announced(m.le, Texts(m)[0]) == (TypeText(m.contentType, m.charSet), body))
        && (HasPart(m) ==> Announced(m.le, Texts(m)[0]) == (TypeText(m.contentType, TextCharSet(m, m.body)), body))
    ensures |Texts(m)| > 2 ==>
      |Texts(m)| == 3 && Announced(m.le, Texts(m)[2]) ==
        (TypeText("text/calendar; method=REQUEST", m.charSet), m.encoding)
  {
    TextChoices(m, m.body);
    TextChoices(m, m.altBody);
    if HasAlternative(m) {
      AlternativesSay(m);
    } else if TypeOf(m).PlainType? {
      LeafSays(m, Layout(m), m.contentType, m.charSet, TextEncoding(m, m.body));
    } else {
      LeafSays(m, BodyLeaf(m, m.contentType, []), m.contentType, TextCharSet(m, m.body), TextEncoding(m, m.body));
    }
  }

  /** The message has an inline or an attached part. */
  predicate HasPart(m: Mail) {
    exists i :: 0 <= i < |m.attachments| && m.attachments[i].disposition in ["inline", "attachment"]
  }

  lemma AlternativesSay(m: Mail)
    requires BreakFree(m.charSet) && BreakFree(m.encoding) && HasAlternative(m)
    ensures 2 <= |Texts(m)| <= 3
    ensures Announced(m.le, Texts(m)[0]) ==
      (TypeText("text/plain", TextCharSet(m, m.altBody)), TextEncoding(m, m.altBody))
    ensures Announced(m.le, Texts(m)[1]) == (TypeText("text/html", TextCharSet(m, m.body)), TextEncoding(m, m.body))
    ensures |Texts(m)| == 3 ==>
      Announced(m.le, Texts(m)[2]) == (TypeText("text/calendar; method=REQUEST", m.charSet), m.encoding)
  {
    var html := HtmlSays(m);
    AltSays(m);
    IcalSays(m);
    TextsOfAlternative(m, html);
  }

  /** The texts of an alternative. */
  lemma TextsOfAlternative(m: Mail, html: seq<Entity>)
    requires HasAlternative(m) && html == [BodyLeaf(m, "text/html", []), BodyLeaf(m, "text/html", [""])]
    ensures 2 <= |Texts(m)| <= 3 && Texts(m)[0] == AltLeaf(m) && Texts(m)[1] in html
    ensures |Texts(m)| == 3 ==> Texts(m)[2] == IcalLeaf(m)
  {
  }

  lemma AltSays(m: Mail)
    requires BreakFree(m.charSet) && BreakFree(m.encoding)
    ensures Announced(m.le, AltLeaf(m)) ==
      (TypeText("text/plain", TextCharSet(m, m.altBody)), TextEncoding(m, m.altBody))
  {
    TextChoices(m, m.altBody);
    LeafSays(m, AltLeaf(m), "text/plain", TextCharSet(m, m.altBody), TextEncoding(m, m.altBody));
  }

  lemma HtmlSays(m: Mail) returns (html: seq<Entity>)
    requires BreakFree(m.charSet) && BreakFree(m.encoding)
    ensures html == [BodyLeaf(m, "text/html", []), BodyLeaf(m, "text/html", [""])]
    ensures forall leaf :: leaf in html ==>
      Announced(m.le, leaf) == (TypeText("text/html", TextCharSet(m, m.body)), TextEncoding(m, m.body))
  {
    html := [BodyLeaf(m, "text/html", []), BodyLeaf(m, "text/html", [""])];
    TextChoices(m, m.body);
    LeafSays(m, html[0], "text/html", TextCharSet(m, m.body), TextEncoding(m, m.body));
    LeafSays(m, html[1], "text/html", TextCharSet(m, m.body), TextEncoding(m, m.body));
  }

  lemma IcalSays(m: Mail)
    requires BreakFree(m.charSet) && BreakFree(m.encoding)
    ensures Announced(m.le, IcalLeaf(m)) == (TypeText("text/calendar; method=REQUEST", m.charSet), m.encoding)
  {
    LeafSays(m, IcalLeaf(m), "text/calendar; method=REQUEST", m.charSet, m.encoding);
  }

  // ---- where the parts are -------------------------------------------------------------

  /** What the attachments are attached to. */
  function Main(m: Mail): Entity {
    if HasDisposition(m, "attachment") && Layout(m).Multi? &&
      Layout(m).parts != [] then Layout(m).parts[0] else Layout(m)
  }

  /** Attachments are beside the main part in a mixed multipart. */
  lemma AttachedToMain(m: Mail)
    ensures (exists i :: 0 <= i < |m.attachments| && m.attachments[i].disposition == "attachment") ==>
      Layout(m).Multi? && Says(Layout(m), "mixed") && Layout(m).parts == [Main(m)] + Attached(m)
  {
    if HasDisposition(m, "attachment") {
      if HasAlternative(m) { MixedLayout(m); } else { PlainMixed(m); }
      IsMixed(m);
    }
  }

  /** The multipart type that the header of an entity announces. */
  predicate Says(e: Entity, subtype: string) {
    e.header != [] && e.header[0] == "Content-Type: multipart/" + subtype + ";"
  }

  lemma IsMixed(m: Mail)
    requires HasDisposition(m, "attachment")
    ensures Says(Layout(m), "mixed")
  {
    LayoutIsTop(m);
  }

  lemma PlainMixed(m: Mail)
    requires HasDisposition(m, "attachment") && !HasAlternative(m)
    ensures Layout(m).Multi? && Layout(m).parts == [Main(m)] + Attached(m)
    ensures HasDisposition(m, "inline") ==>
      Main(m) == Nested(m, "related", '2', [BodyLeaf(m, m.contentType, [])] + Inlines(m), [""])
  {
  }

  /** The main part offers the plain text and the HTML as alternatives. */
  lemma AlternativesInMain(m: Mail)
    ensures m.altBody != "" && m.altBody != "0" ==>
      && Main(m).Multi? && Says(Main(m), "alternative") && |Main(m).parts| >= 2 && Main(m).parts[0] == AltLeaf(m)
  {
    if HasAlternative(m) {
      if HasDisposition(m, "attachment") {
        MixedLayout(m);
      } else {
        AlternativeParts(m);
        LayoutIsTop(m);
      }
    }
  }

  /** Inline attachments are beside the body in a related multipart. */
  lemma InlinesBesideBody(m: Mail)
    requires exists i :: 0 <= i < |m.attachments| && m.attachments[i].disposition == "inline"
    ensures var alt := m.altBody != "" && m.altBody != "0";
      (alt ==> Main(m).Multi? && |Main(m).parts| == 2) &&
      var related := if alt then Main(m).parts[1] else Main(m);
      && related.Multi? && Says(related, "related")
      && related.parts == [BodyLeaf(m, if alt then "text/html" else m.contentType, [])] + Inlines(m)
  {
    assert HasDisposition(m, "inline");
    if HasAlternative(m) {
      if HasDisposition(m, "attachment") { MixedLayout(m); } else { AlternativeParts(m); }
    } else if HasDisposition(m, "attachment") {
      PlainMixed(m);
    }
  }

  /** The header of a multipart message announces its type and boundary, and no
      encoding but 8bit. */
  lemma TopHeaderSays(m: Mail, subtype: string)
    requires BreakFree(m.uid) && BreakFree(subtype)
    ensures Field(m.le, TopHeader(m, subtype), "Content-Type: ") ==
      Some("Content-Type: multipart/" + subtype + ";" + m.le + ("\tboundary=\"b1_" + m.uid + "\""))
    ensures EncodingOf(m.le, TopHeader(m, subtype)) == if m.encoding == "8bit" then "8bit" else "7bit"
  {
    var first, second, third := "Content-Type: multipart/" + subtype + ";",
      BOUNDARY_PARAMETER + Boundary(m, '1') + "\"", ENCODING_FIELD + m.encoding;
    assert "Content-Type: " <= first;
    FieldNames(first);
    assert second == "\tboundary=\"b1_" + m.uid + "\"" && second[0] == '\t';
    var header := TopHeader(m, subtype);
    assert header[0] == first && header[1] == second;
    assert header[1..][0] == second && header[2..] == header[1..][1..];
    assert !IsIndented(third) && ENCODING_FIELD <= third;
    assert Continued(header[1..]) == 1;
    assert header[..2] == [first, second];
    ImplodeTwo(m.le, first, second);
    assert !(ENCODING_FIELD <= second);
    assert header == [first, second] + header[2..];
    SkipLines(m.le, [first, second], header[2..], ENCODING_FIELD);
    if m.encoding == "8bit" {
      assert header[2..] == [third] && |header[2..][1..]| == 0;
      assert third[|ENCODING_FIELD|..] == m.encoding;
    }
  }
}
