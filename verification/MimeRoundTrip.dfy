/** What is printed reads back: a reader that follows section 5.1 of RFC 2046
    gets the layout of the message from its text, with every body, and every
    attachment that is not dropped, exactly once. */
module MimeRoundTrip {
  import opened Strings
  import opened Wrappers
  import opened MimeReader
  import opened MimeLayout
  import HeaderEncoder
  import HeaderReader
  import QEncoding

  // ---- header fields over several lines ----------------------------------------

  /** A line that neither ends a header nor can be read as anything but the
      start or a space-indented continuation of a field. */
  predicate IsFieldLine(line: string) {
    line != "" && line[0] != '\t' && line[0] != '-'
  }

  predicate AreFieldLines(lines: seq<string>) {
    forall i :: 0 <= i < |lines| ==> IsFieldLine(lines[i])
  }

  /** Each line but the first is indented by a space. */
  predicate IsFolded(le: LineEnding, s: string) {
    forall i :: 1 <= i < |Explode(le, s)| ==> " " <= Explode(le, s)[i]
  }

  lemma {:induction false} ExplodePrefix(le: LineEnding, p: string, s: string)
    requires BreakFree(p)
    ensures Explode(le, p + s) == [p + Explode(le, s)[0]] + Explode(le, s)[1..]
  {
    var parts := Explode(le, s);
    if p == "" {
      assert p + s == s && p + parts[0] == parts[0];
    } else {
      assert !(le <= p + s) by { assert (p + s)[0] == p[0] && le[0] != p[0]; }
      assert (p + s)[1..] == p[1..] + s;
      ExplodePrefix(le, p[1..], s);
      assert [p[0]] + (p[1..] + parts[0]) == p + parts[0];
    }
  }

  function AddToLast(parts: seq<string>, q: string): seq<string>
    requires parts != []
  {
    parts[..|parts| - 1] + [parts[|parts| - 1] + q]
  }

  lemma AddToLastCons(first: string, rest: seq<string>, q: string)
    requires rest != []
    ensures AddToLast([first] + rest, q) == [first] + AddToLast(rest, q)
  {
  }

  lemma {:induction false} ExplodeSuffix(le: LineEnding, s: string, q: string)
    requires BreakFree(q)
    ensures Explode(le, s + q) == AddToLast(Explode(le, s), q)
    decreases |s|
  {
    if s == "" {
      ExplodePrefix(le, q, "");
      assert q + "" == q && "" + q == q;
    } else if le <= s {
      ExplodeSuffix(le, s[|le|..], q);
      SuffixAfterBreak(le, s, q);
    } else {
      ExplodeSuffix(le, s[1..], q);
      SuffixAfterChar(le, s, q);
    }
  }

  lemma SuffixAfterBreak(le: LineEnding, s: string, q: string)
    requires le <= s && Explode(le, s[|le|..] + q) == AddToLast(Explode(le, s[|le|..]), q)
    ensures Explode(le, s + q) == AddToLast(Explode(le, s), q)
  {
    PrefixStays(le, s, q);
    ExplodeAtBreak(le, s);
    ExplodeAtBreak(le, s + q);
    AddToLastCons("", Explode(le, s[|le|..]), q);
  }

  lemma PrefixStays(le: string, s: string, q: string)
    requires le <= s
    ensures le <= s + q && (s + q)[|le|..] == s[|le|..] + q
  {
    assert (s + q)[..|le|] == s[..|le|];
  }

  lemma ExplodeAtBreak(le: LineEnding, t: string)
    requires le <= t
    ensures Explode(le, t) == [""] + Explode(le, t[|le|..])
  {
  }

  lemma SuffixAfterChar(le: LineEnding, s: string, q: string)
    requires BreakFree(q) && s != "" && !(le <= s) && Explode(le, s[1..] + q) == AddToLast(Explode(le, s[1..]), q)
    ensures Explode(le, s + q) == AddToLast(Explode(le, s), q)
  {
    NotAtStart(le, s, q);
    assert (s + q)[1..] == s[1..] + q && (s + q)[0] == s[0];
    FirstThenLast(Explode(le, s[1..]), s[0], q);
  }

  lemma NotAtStart(le: LineEnding, s: string, q: string)
    requires BreakFree(q) && s != "" && !(le <= s)
    ensures !(le <= s + q)
  {
    if |s| >= |le| {
      assert (s + q)[..|le|] == s[..|le|];
    } else if q != "" {
      assert (s + q)[1] == q[0];
    }
  }

  lemma FirstThenLast(rest: seq<string>, c: char, q: string)
    requires rest != []
    ensures var after := AddToLast(rest, q);
      [[c] + after[0]] + after[1..] == AddToLast([[c] + rest[0]] + rest[1..], q)
  {
    if |rest| == 1 {
      assert [c] + (rest[0] + q) == [c] + rest[0] + q;
    }
  }

  /** A field with a folded value is made of field lines. */
  lemma FieldIsSound(le: LineEnding, name: string, value: string, end: string)
    requires BreakFree(name) && IsFieldLine(name) && IsFolded(le, value) && BreakFree(end)
    ensures AreFieldLines(Explode(le, name + value + end))
  {
    ExplodePrefix(le, name, value);
    ExplodeSuffix(le, name + value, end);
  }

  /** A field without line breaks is one field line. */
  lemma PlainField(le: LineEnding, field: string)
    requires BreakFree(field) && IsFieldLine(field)
    ensures AreFieldLines(Explode(le, field)) && Explode(le, field) == [field]
  {
    ExplodePrefix(le, field, "");
    assert field + "" == field;
  }

  // ---- what is assumed of the message ------------------------------------------

  /** No line of the text starts like a boundary of the message. */
  predicate IsClean(m: Mail, lines: seq<string>) {
    NoDelimiters(Boundary(m, '1'), lines) && NoDelimiters(Boundary(m, '2'), lines) &&
      NoDelimiters(Boundary(m, '3'), lines)
  }

  predicate IsSoundAttachment(m: Mail, a: Attachment) {
    && BreakFree(a.mime) && BreakFree(a.encoding) && BreakFree(a.cid)
    && IsFolded(m.le, m.env.encodeName(a.name))
    && IsClean(m, Explode(m.le, ContentText(m, a)))
  }

  /** The attachment is printed. */
  predicate IsPrinted(m: Mail, i: nat)
    requires i < |m.attachments|
  {
    (m.attachments[i].disposition == "inline" || m.attachments[i].disposition == "attachment") &&
      Survives(m.attachments, i)
  }

  /** Settings without line breaks, and no boundary line in what is printed. */
  predicate IsSound(m: Mail) {
    && BreakFree(m.uid) && BreakFree(m.charSet) && BreakFree(m.encoding) &&
      (HasAlternative(m) || BreakFree(m.contentType))
    && IsClean(m, Explode(m.le, Encoded(m, m.body, TextEncoding(m, m.body))))
    && (HasAlternative(m) ==> IsClean(m, Explode(m.le, Encoded(m, m.altBody, TextEncoding(m, m.altBody)))))
    && (TypeOf(m).AltType? && HasIcal(m) ==> IsClean(m, Explode(m.le, Encoded(m, m.ical, m.encoding))))
    && forall i :: 0 <= i < |m.attachments| && IsPrinted(m, i) ==> IsSoundAttachment(m, m.attachments[i])
  }

  // ---- the leaves ---------------------------------------------------------------

  /** An entity that can be printed inside the boundary `k` of the message. */
  predicate Fits(m: Mail, k: char, e: Entity) {
    IsPrintable(e) && NoDelimiters(Boundary(m, k), Lines(e)) && AreLines(m.le, Lines(e))
  }

  predicate AllFit(m: Mail, k: char, parts: seq<Entity>) {
    forall i :: 0 <= i < |parts| ==> Fits(m, k, parts[i])
  }

  lemma {:induction false} FieldsAnnounceNothing(header: seq<string>)
    requires AreFieldLines(header)
    ensures BoundaryOf(header) == None
  {
    if |header| >= 2 {
      assert !(BOUNDARY_PARAMETER <= header[1]);
      FieldsAnnounceNothing(header[1..]);
    }
  }

  lemma LeafFits(m: Mail, k: char, header: seq<string>, body: seq<string>)
    requires k in "123" && AreFieldLines(header) && AreLines(m.le, header) && AreLines(m.le, body) && IsClean(m, body)
    ensures Fits(m, k, Leaf(header, body))
  {
    FieldsAnnounceNothing(header);
    OneLineIs(m.le, "");
    assert k == '1' || k == '2' || k == '3';
    assert NoDelimiters(Boundary(m, k), body);
  }

  lemma OneLineIs(le: LineEnding, line: string)
    requires BreakFree(line)
    ensures IsOneLine(le, line)
  {
    ExplodePrefix(le, line, "");
    assert line + "" == line;
  }

  /** Lines of a header, each without a line ending of its own. */
  predicate AreHeaderLines(le: LineEnding, lines: seq<string>) {
    AreFieldLines(lines) && AreLines(le, lines)
  }

  lemma HeaderLinesAppend(le: LineEnding, a: seq<string>, b: seq<string>)
    requires AreHeaderLines(le, a) && AreHeaderLines(le, b)
    ensures AreHeaderLines(le, a + b)
  {
  }

  lemma FieldLines(le: LineEnding, field: string)
    requires AreFieldLines(Explode(le, field))
    ensures AreHeaderLines(le, Explode(le, field))
  {
    ExplodedAreLines(le, field);
  }

  lemma EncodingField(le: LineEnding, encoding: string)
    requires BreakFree(encoding)
    ensures var field := "Content-Transfer-Encoding: " + encoding;
      AreHeaderLines(le, [field]) && Explode(le, field) == [field]
  {
    PlainField(le, "Content-Transfer-Encoding: " + encoding);
  }

  lemma IdField(le: LineEnding, cid: string)
    requires BreakFree(cid)
    ensures var field := "Content-ID: <" + cid + ">"; AreHeaderLines(le, [field]) && Explode(le, field) == [field]
  {
    PlainField(le, "Content-ID: <" + cid + ">");
  }

  lemma TypeField(le: LineEnding, contentType: string, charSet: string)
    requires BreakFree(contentType) && BreakFree(charSet)
    ensures AreHeaderLines(le, ["Content-Type: " + contentType + "; charset=" + charSet])
  {
    PlainField(le, "Content-Type: " + contentType + "; charset=" + charSet);
  }

  lemma LeafHeaderIsSound(le: LineEnding, contentType: string, charSet: string, encoding: string)
    requires BreakFree(contentType) && BreakFree(charSet) && BreakFree(encoding)
    ensures AreHeaderLines(le, LeafHeader(contentType, charSet, encoding))
  {
    TypeField(le, contentType, charSet);
    EncodingField(le, encoding);
    HeaderLinesAppend(le, ["Content-Type: " + contentType + "; charset=" + charSet],
      if encoding != "7bit" then ["Content-Transfer-Encoding: " + encoding] else []);
  }

  lemma TextFits(m: Mail, k: char, contentType: string, charSet: string, encoding: string, text: string,
      extra: seq<string>)
    requires k in "123" && BreakFree(contentType) && BreakFree(charSet) && BreakFree(encoding)
    requires IsClean(m, Explode(m.le, Encoded(m, text, encoding))) && (extra == [] || extra == [""])
    ensures Fits(m, k, TextLeaf(m, contentType, charSet, encoding, text, extra))
  {
    var lines := Explode(m.le, Encoded(m, text, encoding));
    LeafHeaderIsSound(m.le, contentType, charSet, encoding);
    ExplodedAreLines(m.le, Encoded(m, text, encoding));
    OneLineIs(m.le, "");
    LeafFits(m, k, LeafHeader(contentType, charSet, encoding), lines + [""] + extra);
  }

  /** The character set and the encoding chosen for a text have no breaks. */
  lemma TextChoices(m: Mail, text: string)
    requires BreakFree(m.charSet) && BreakFree(m.encoding)
    ensures BreakFree(TextCharSet(m, text)) && BreakFree(TextEncoding(m, text))
  {
  }

  lemma SoundTexts(m: Mail)
    requires IsSound(m)
    ensures BreakFree(m.charSet) && BreakFree(m.encoding)
    ensures IsClean(m, Explode(m.le, Encoded(m, m.body, TextEncoding(m, m.body))))
    ensures HasAlternative(m) ==> IsClean(m, Explode(m.le, Encoded(m, m.altBody, TextEncoding(m, m.altBody))))
  {
  }

  lemma BodyFits(m: Mail, k: char, contentType: string, extra: seq<string>)
    requires IsSound(m) && k in "123" && BreakFree(contentType) && (extra == [] || extra == [""])
    ensures Fits(m, k, BodyLeaf(m, contentType, extra))
  {
    SoundTexts(m);
    TextChoices(m, m.body);
    TextFits(m, k, contentType, TextCharSet(m, m.body), TextEncoding(m, m.body), m.body, extra);
  }

  lemma AltFits(m: Mail, k: char)
    requires IsSound(m) && HasAlternative(m) && k in "123"
    ensures Fits(m, k, AltLeaf(m))
  {
    SoundTexts(m);
    TextChoices(m, m.altBody);
    TextFits(m, k, "text/plain", TextCharSet(m, m.altBody), TextEncoding(m, m.altBody), m.altBody, []);
  }

  lemma IcalFits(m: Mail, k: char)
    requires IsSound(m) && TypeOf(m).AltType? && HasIcal(m) && k in "123"
    ensures Fits(m, k, IcalLeaf(m))
  {
    TextFits(m, k, "text/calendar; method=REQUEST", m.charSet, m.encoding, m.ical, [""]);
  }

  lemma DispositionIsSound(m: Mail, a: Attachment)
    requires IsFolded(m.le, m.env.encodeName(a.name)) && BreakFree(a.disposition)
    ensures AreFieldLines(Explode(m.le, DispositionLine(m, a)))
  {
    var name, field := m.env.encodeName(a.name), "Content-Disposition: " + a.disposition;
    if NeedsQuotes(name) {
      FieldIsSound(m.le, field + "; filename=\"", name, "\"");
      assert field + "; filename=\"" + name + "\"" == DispositionLine(m, a);
    } else if IsEmptyName(name) {
      PlainField(m.le, field);
      assert field + "" == field;
    } else {
      FieldIsSound(m.le, field + "; filename=", name, "");
      assert field + "; filename=" + name + "" == DispositionLine(m, a);
    }
  }

  lemma TypeIsSound(m: Mail, a: Attachment)
    requires BreakFree(a.mime) && IsFolded(m.le, m.env.encodeName(a.name))
    ensures AreFieldLines(Explode(m.le, TypeLine(m, a)))
  {
    var field := "Content-Type: " + a.mime;
    if IsEmptyName(a.name) {
      PlainField(m.le, field);
      assert field + "" == field;
    } else {
      FieldIsSound(m.le, field + "; name=\"", m.env.encodeName(a.name), "\"");
      assert field + "; name=\"" + m.env.encodeName(a.name) + "\"" == TypeLine(m, a);
    }
  }

  lemma FourFields(le: LineEnding, a: seq<string>, b: seq<string>, c: seq<string>, d: seq<string>)
    requires AreHeaderLines(le, a) && AreHeaderLines(le, b) && AreHeaderLines(le, c) && AreHeaderLines(le, d)
    ensures AreHeaderLines(le, a + b + c + d)
  {
    HeaderLinesAppend(le, a, b);
    HeaderLinesAppend(le, a + b, c);
    HeaderLinesAppend(le, a + b + c, d);
  }

  lemma AttachmentHeaderIsSound(m: Mail, a: Attachment)
    requires IsSoundAttachment(m, a) && BreakFree(a.disposition)
    ensures AreHeaderLines(m.le, AttachmentHeader(m, a))
  {
    TypeIsSound(m, a);
    FieldLines(m.le, TypeLine(m, a));
    EncodingField(m.le, a.encoding);
    IdField(m.le, a.cid);
    DispositionIsSound(m, a);
    FieldLines(m.le, DispositionLine(m, a));
    FourFields(m.le, Explode(m.le, TypeLine(m, a)),
      if a.encoding != "7bit" then Explode(m.le, "Content-Transfer-Encoding: " + a.encoding) else [],
      if a.disposition == "inline" then Explode(m.le, "Content-ID: <" + a.cid + ">") else [],
      Explode(m.le, DispositionLine(m, a)));
  }

  lemma AttachmentFits(m: Mail, k: char, a: Attachment)
    requires k in "123" && IsSoundAttachment(m, a) && BreakFree(a.disposition)
    ensures Fits(m, k, AttachmentLeaf(m, a))
  {
    AttachmentHeaderIsSound(m, a);
    ExplodedAreLines(m.le, ContentText(m, a));
    OneLineIs(m.le, "");
    LeafFits(m, k, AttachmentHeader(m, a), Explode(m.le, ContentText(m, a)) + [""]);
  }

  /** The printed attachments fit. */
  predicate PrintedFit(m: Mail, k: char) {
    forall i :: 0 <= i < |m.attachments| && IsPrinted(m, i) ==> Fits(m, k, AttachmentLeaf(m, m.attachments[i]))
  }

  lemma PrintedIsSound(m: Mail, i: nat)
    requires IsSound(m) && i < |m.attachments| && IsPrinted(m, i)
    ensures IsSoundAttachment(m, m.attachments[i])
  {
  }

  lemma OneFits(m: Mail, k: char, i: nat)
    requires IsSound(m) && k in "123" && i < |m.attachments| && IsPrinted(m, i)
    ensures Fits(m, k, AttachmentLeaf(m, m.attachments[i]))
  {
    PrintedIsSound(m, i);
    AttachmentFits(m, k, m.attachments[i]);
  }

  lemma SoundIsPrintedFit(m: Mail, k: char)
    requires IsSound(m) && k in "123"
    ensures PrintedFit(m, k)
  {
    forall i | 0 <= i < |m.attachments| && IsPrinted(m, i) ensures Fits(m, k, AttachmentLeaf(m, m.attachments[i])) {
      OneFits(m, k, i);
    }
  }

  /** What holds of every printed attachment holds of every part. */
  lemma {:induction false} EachPart(m: Mail, disposition: string, n: nat, holds: Entity -> bool)
    requires n <= |m.attachments| && (disposition == "inline" || disposition == "attachment")
    requires forall i :: 0 <= i < |m.attachments| && IsPrinted(m, i) ==> holds(AttachmentLeaf(m, m.attachments[i]))
    ensures forall i :: 0 <= i < |AttachmentParts(m, disposition, n)| ==> holds(AttachmentParts(m, disposition, n)[i])
  {
    if n > 0 {
      EachPart(m, disposition, n - 1, holds);
      if m.attachments[n - 1].disposition == disposition && Survives(m.attachments, n - 1) {
        assert IsPrinted(m, n - 1);
      }
    }
  }

  lemma AttachmentsFit(m: Mail, k: char, disposition: string)
    requires IsSound(m) && k in "123" && (disposition == "inline" || disposition == "attachment")
    ensures AllFit(m, k, AttachmentParts(m, disposition, |m.attachments|))
  {
    SoundIsPrintedFit(m, k);
    EachPart(m, disposition, |m.attachments|, e => Fits(m, k, e));
  }

  // ---- nesting -------------------------------------------------------------------

  lemma BoundariesDiffer(m: Mail, j: char, k: char)
    requires j != k
    ensures !IsDelimiter(Boundary(m, j), "--" + Boundary(m, k)) &&
      !IsDelimiter(Boundary(m, j), "--" + Boundary(m, k) + "--")
  {
    assert ("--" + Boundary(m, j))[3] == j && ("--" + Boundary(m, k))[3] == k && ("--" + Boundary(m, k) + "--")[3] == k;
  }

  lemma BoundaryIsLine(m: Mail, k: char)
    requires BreakFree(m.uid) && k in "123"
    ensures IsOneLine(m.le, "--" + Boundary(m, k)) && IsOneLine(m.le, "--" + Boundary(m, k) + "--")
  {
    OneLineIs(m.le, "--" + Boundary(m, k));
    OneLineIs(m.le, "--" + Boundary(m, k) + "--");
  }

  lemma {:induction false} PartsFit(m: Mail, k: char, parts: seq<Entity>)
    requires BreakFree(m.uid) && k in "123" && AllFit(m, k, parts)
    ensures ArePrintable(Boundary(m, k), parts) && AreLines(m.le, PartLines(Boundary(m, k), parts))
  {
    if parts != [] {
      BoundaryIsLine(m, k);
      assert Fits(m, k, parts[0]);
      PartsFit(m, k, parts[1..]);
    }
  }

  lemma {:induction false} PartsAreForeign(m: Mail, j: char, k: char, parts: seq<Entity>)
    requires j != k && AllFit(m, j, parts)
    ensures NoDelimiters(Boundary(m, j), PartLines(Boundary(m, k), parts))
  {
    if parts != [] {
      BoundariesDiffer(m, j, k);
      assert Fits(m, j, parts[0]);
      PartsAreForeign(m, j, k, parts[1..]);
    }
  }

  lemma AnnouncesBoundary(subtype: string, boundary: string, more: seq<string>)
    ensures BoundaryOf(NestedHeader(subtype, boundary) + more) == Some(boundary)
  {
    var header := NestedHeader(subtype, boundary) + more;
    assert "Content-Type: multipart/" <= header[0];
    assert BOUNDARY_PARAMETER <= header[1] && header[1][|BOUNDARY_PARAMETER|..|header[1]| - 1] == boundary;
  }

  lemma NestedHeaderIsSound(m: Mail, subtype: string, k: char)
    requires BreakFree(m.uid) && BreakFree(subtype) && k in "123"
    ensures var header := NestedHeader(subtype, Boundary(m, k));
      AreLines(m.le, header) && NoBlanks(header) && (forall b :: NoDelimiters(b, header)) &&
        BoundaryOf(header) == Some(Boundary(m, k))
  {
    var header := NestedHeader(subtype, Boundary(m, k));
    AnnouncesBoundary(subtype, Boundary(m, k), []);
    assert header + [] == header;
    OneLineIs(m.le, header[0]);
    OneLineIs(m.le, header[1]);
  }

  /** Lines that can stand inside the boundary `j`. */
  predicate Stands(m: Mail, j: char, lines: seq<string>) {
    NoDelimiters(Boundary(m, j), lines) && AreLines(m.le, lines)
  }

  lemma StandsAfter(m: Mail, j: char, a: seq<string>, b: seq<string>)
    requires Stands(m, j, a) && Stands(m, j, b)
    ensures Stands(m, j, a + b)
  {
  }

  lemma ClosingStands(m: Mail, j: char, k: char, epilogue: seq<string>)
    requires BreakFree(m.uid) && j != k && j in "123" && k in "123" && (epilogue == [""] || epilogue == ["", ""])
    ensures Stands(m, j, ["--" + Boundary(m, k) + "--"] + epilogue)
  {
    BoundariesDiffer(m, j, k);
    BoundaryIsLine(m, k);
    OneLineIs(m.le, "");
  }

  /** A nested multipart fits wherever its parts do. */
  lemma NestedFits(m: Mail, j: char, k: char, subtype: string, parts: seq<Entity>, epilogue: seq<string>)
    requires BreakFree(m.uid) && BreakFree(subtype) && j != k && j in "123" && k in "123"
    requires AllFit(m, j, parts) && AllFit(m, k, parts) && (epilogue == [""] || epilogue == ["", ""])
    ensures Fits(m, j, Nested(m, subtype, k, parts, epilogue))
  {
    var header, lines, closing := NestedHeader(subtype, Boundary(m, k)), PartLines(Boundary(m, k), parts),
      ["--" + Boundary(m, k) + "--"] + epilogue;
    PartsFit(m, k, parts);
    PartsAreForeign(m, j, k, parts);
    NestedHeaderIsSound(m, subtype, k);
    ClosingStands(m, j, k, epilogue);
    OneLineIs(m.le, "");
    StandsAfter(m, j, header, [""]);
    StandsAfter(m, j, lines, closing);
    StandsAfter(m, j, header + [""], [] + (lines + closing));
    assert Lines(Nested(m, subtype, k, parts, epilogue)) == header + [""] + ([] + (lines + closing));
  }

  // ---- the message ---------------------------------------------------------------

  /** What the reader gets: the layout, with the end of the text after the last
      delimiter as epilogue. */
  function Received(m: Mail): Entity {
    var e := Layout(m);
    if e.Leaf? then e else e.(epilogue := [""])
  }

  function MessageText(m: Mail): string {
    Unlines(m.le, MimeHeader(m) + [""]) + BodyText(m)
  }

  /** The text has the lines of an entity that can be printed. */
  predicate IsTextOf(le: LineEnding, text: string, e: Entity) {
    IsPrintable(e) && Explode(le, text) == Lines(e)
  }

  lemma TextOfLines(m: Mail, lines: seq<string>, text: string, rest: string, e: Entity)
    requires AreLines(m.le, lines) && text == Unlines(m.le, lines) + rest
    requires IsPrintable(e) && Lines(e) == lines + Explode(m.le, rest)
    ensures IsTextOf(m.le, text, e)
  {
    ExplodeUnlines(m.le, lines, rest);
  }

  lemma LinesAfter(le: LineEnding, a: seq<string>, b: seq<string>)
    requires AreLines(le, a) && AreLines(le, b)
    ensures AreLines(le, a + b)
  {
  }

  lemma TopHeaderIsSound(m: Mail, subtype: string)
    requires BreakFree(m.uid) && BreakFree(subtype)
    ensures var header := TopHeader(m, subtype);
      AreLines(m.le, header) && NoBlanks(header) && BoundaryOf(header) == Some(Boundary(m, '1'))
  {
    var more := if m.encoding == "8bit" then ["Content-Transfer-Encoding: " + m.encoding] else [];
    NestedHeaderIsSound(m, subtype, '1');
    AnnouncesBoundary(subtype, Boundary(m, '1'), more);
    if more != [] { EncodingField(m.le, m.encoding); }
    LinesAfter(m.le, NestedHeader(subtype, Boundary(m, '1')), more);
  }

  lemma TopIsPrintable(m: Mail, subtype: string, parts: seq<Entity>)
    requires IsSound(m) && BreakFree(subtype) && AllFit(m, '1', parts)
    ensures IsPrintable(Multi(TopHeader(m, subtype), Boundary(m, '1'), Preamble(), parts, [""]))
    ensures AreLines(m.le, TopHeader(m, subtype) + [""]) && AreLines(m.le, BodyLines(Top(m, subtype, parts)))
  {
    var lines, closing := PartLines(Boundary(m, '1'), parts), ["--" + Boundary(m, '1') + "--"] + [];
    PartsFit(m, '1', parts);
    BoundaryIsLine(m, '1');
    TopHeaderIsSound(m, subtype);
    OneLineIs(m.le, "");
    LinesAfter(m.le, TopHeader(m, subtype), [""]);
    PreambleIsSound(m);
    LinesAfter(m.le, lines, closing);
    LinesAfter(m.le, Preamble(), lines + closing);
  }

  lemma PreambleIsPlain(b: string)
    ensures BreakFree(Preamble()[0]) && !IsDelimiter(b, Preamble()[0])
  {
    assert Preamble()[0][0] == 'T' && ("--" + b)[0] == '-';
  }

  lemma LineAndBlank(le: LineEnding, b: string, line: string)
    requires BreakFree(line) && !IsDelimiter(b, line)
    ensures AreLines(le, [line, ""]) && NoDelimiters(b, [line, ""])
  {
    OneLineIs(le, line);
    OneLineIs(le, "");
  }

  lemma PreambleIsSound(m: Mail)
    ensures AreLines(m.le, Preamble()) && NoDelimiters(Boundary(m, '1'), Preamble())
  {
    PreambleIsPlain(Boundary(m, '1'));
    LineAndBlank(m.le, Boundary(m, '1'), Preamble()[0]);
    assert Preamble() == [Preamble()[0], ""];
  }

  lemma TextOfTop(m: Mail, subtype: string, parts: seq<Entity>)
    requires IsSound(m) && BreakFree(subtype) && AllFit(m, '1', parts)
    ensures var e := Top(m, subtype, parts);
      IsTextOf(m.le, Unlines(m.le, TopHeader(m, subtype) + [""]) + Unlines(m.le, BodyLines(e)), e.(epilogue := [""]))
  {
    var e, header := Top(m, subtype, parts), TopHeader(m, subtype) + [""];
    var lines := header + BodyLines(e);
    TopIsPrintable(m, subtype, parts);
    UnlinesAppend(m.le, header, BodyLines(e));
    EndOfText(m, e, [""]);
    assert Unlines(m.le, lines) == Unlines(m.le, lines) + "";
    TextOfLines(m, lines, Unlines(m.le, header) + Unlines(m.le, BodyLines(e)), "", e.(epilogue := [""]));
  }

  lemma EndOfText(m: Mail, e: Entity, end: seq<string>)
    requires e.Multi? && e.epilogue == []
    ensures Lines(e.(epilogue := end)) == e.header + [""] + BodyLines(e) + end
  {
  }

  lemma TextOfPlain(m: Mail)
    requires IsSound(m) && TypeOf(m).PlainType?
    ensures IsTextOf(m.le, MessageText(m), Layout(m))
  {
    var header, text := PlainHeader(m), Encoded(m, m.body, TextEncoding(m, m.body));
    LeafHeaderIsSound(m.le, m.contentType, m.charSet, TextEncoding(m, m.body));
    FieldsAnnounceNothing(header);
    OneLineIs(m.le, "");
    TextOfLines(m, header + [""], MessageText(m), text, Layout(m));
  }

  lemma AllFitAppend(m: Mail, k: char, a: seq<Entity>, b: seq<Entity>)
    requires AllFit(m, k, a) && AllFit(m, k, b)
    ensures AllFit(m, k, a + b)
  {
  }

  /** A body and its inline attachments as one part. */
  lemma RelatedFits(m: Mail, j: char, k: char, contentType: string, epilogue: seq<string>)
    requires IsSound(m) && BreakFree(contentType) && j != k && j in "123" && k in "123" &&
      (epilogue == [""] || epilogue == ["", ""])
    ensures Fits(m, j, Nested(m, "related", k, [BodyLeaf(m, contentType, [])] + Inlines(m), epilogue))
  {
    FlatFits(m, j, contentType, "inline");
    FlatFits(m, k, contentType, "inline");
    NestedFits(m, j, k, "related", [BodyLeaf(m, contentType, [])] + Inlines(m), epilogue);
  }

  lemma FlatFits(m: Mail, k: char, contentType: string, disposition: string)
    requires IsSound(m) && BreakFree(contentType) && k in "123" &&
      (disposition == "inline" || disposition == "attachment")
    ensures AllFit(m, k, [BodyLeaf(m, contentType, [])] + AttachmentParts(m, disposition, |m.attachments|))
  {
    BodyFits(m, k, contentType, []);
    AttachmentsFit(m, k, disposition);
    AllFitAppend(m, k, [BodyLeaf(m, contentType, [])], AttachmentParts(m, disposition, |m.attachments|));
  }

  /** A part followed by the attachments. */
  lemma WithAttachedFits(m: Mail, part: Entity)
    requires IsSound(m) && Fits(m, '1', part)
    ensures AllFit(m, '1', [part] + Attached(m))
  {
    AttachmentsFit(m, '1', "attachment");
    AllFitAppend(m, '1', [part], Attached(m));
  }

  lemma AlternativeFits(m: Mail, html: Entity)
    requires IsSound(m) && HasAlternative(m) && Fits(m, '1', html) && Fits(m, '2', html)
    ensures Fits(m, '1', Nested(m, "alternative", '2', [AltLeaf(m), html], [""]))
  {
    AltFits(m, '1');
    AltFits(m, '2');
    NestedFits(m, '1', '2', "alternative", [AltLeaf(m), html], [""]);
  }

  lemma InlineAttachFits(m: Mail)
    requires IsSound(m) && TypeOf(m).InlineAttachType?
    ensures AllFit(m, '1', Layout(m).parts)
  {
    RelatedFits(m, '1', '2', m.contentType, [""]);
    WithAttachedFits(m, Nested(m, "related", '2', [BodyLeaf(m, m.contentType, [])] + Inlines(m), [""]));
  }

  lemma PartsOfPlainTypes(m: Mail)
    requires IsSound(m) && !HasAlternative(m) && !TypeOf(m).PlainType?
    ensures AllFit(m, '1', Layout(m).parts)
  {
    if TypeOf(m).InlineType? {
      FlatFits(m, '1', m.contentType, "inline");
    } else if TypeOf(m).AttachType? {
      FlatFits(m, '1', m.contentType, "attachment");
    } else {
      InlineAttachFits(m);
    }
  }

  lemma AlternativesFit(m: Mail)
    requires IsSound(m) && TypeOf(m).AltType?
    ensures AllFit(m, '1', Alternatives(m))
  {
    AltFits(m, '1');
    if HasIcal(m) {
      BodyFits(m, '1', "text/html", []);
      IcalFits(m, '1');
    } else {
      BodyFits(m, '1', "text/html", [""]);
    }
  }

  lemma AltInlineFits(m: Mail)
    requires IsSound(m) && TypeOf(m).AltInlineType?
    ensures AllFit(m, '1', [AltLeaf(m), HtmlWithInlines(m, '2')])
  {
    AltFits(m, '1');
    RelatedFits(m, '1', '2', "text/html", ["", ""]);
  }

  lemma AlternativeParts(m: Mail)
    requires HasAlternative(m) && !HasDisposition(m, "attachment")
    ensures TypeOf(m).AltType? || TypeOf(m).AltInlineType?
    ensures Layout(m).Multi? && Layout(m).parts == if TypeOf(m).AltType? then Alternatives(m)
      else [AltLeaf(m), HtmlWithInlines(m, '2')]
  {
  }

  lemma PartsOfAlternatives(m: Mail)
    requires IsSound(m) && HasAlternative(m) && !HasDisposition(m, "attachment")
    ensures AllFit(m, '1', Layout(m).parts)
  {
    AlternativeParts(m);
    if TypeOf(m).AltType? { AlternativesFit(m); } else { AltInlineFits(m); }
  }

  /** The html part of an alternative with attachments. */
  function HtmlPart(m: Mail): Entity {
    if HasDisposition(m, "inline") then HtmlWithInlines(m, '3') else BodyLeaf(m, "text/html", [""])
  }

  lemma HtmlFits(m: Mail)
    requires IsSound(m)
    ensures Fits(m, '1', HtmlPart(m)) && Fits(m, '2', HtmlPart(m))
  {
    if HasDisposition(m, "inline") {
      RelatedFits(m, '1', '3', "text/html", ["", ""]);
      RelatedFits(m, '2', '3', "text/html", ["", ""]);
    } else {
      BodyFits(m, '1', "text/html", [""]);
      BodyFits(m, '2', "text/html", [""]);
    }
  }

  lemma MixedLayout(m: Mail)
    requires HasAlternative(m) && HasDisposition(m, "attachment")
    ensures Layout(m).Multi? && Layout(m).parts ==
      [Nested(m, "alternative", '2', [AltLeaf(m), HtmlPart(m)], [""])] + Attached(m)
  {
  }

  lemma PartsOfAttachedAlternatives(m: Mail)
    requires IsSound(m) && HasAlternative(m) && HasDisposition(m, "attachment")
    ensures AllFit(m, '1', Layout(m).parts)
  {
    HtmlFits(m);
    AlternativeFits(m, HtmlPart(m));
    WithAttachedFits(m, Nested(m, "alternative", '2', [AltLeaf(m), HtmlPart(m)], [""]));
    MixedLayout(m);
  }

  lemma LayoutIsTop(m: Mail)
    requires !TypeOf(m).PlainType?
    ensures Layout(m) == Top(m, Subtype(TypeOf(m)), Layout(m).parts)
    ensures MessageText(m) == Unlines(m.le, TopHeader(m, Subtype(TypeOf(m))) + [""]) +
      Unlines(m.le, BodyLines(Layout(m)))
  {
  }

  lemma SubtypeIsPlain(t: MessageType)
    ensures BreakFree(Subtype(t))
  {
  }

  lemma PartsOfLayout(m: Mail)
    requires IsSound(m) && !TypeOf(m).PlainType?
    ensures AllFit(m, '1', Layout(m).parts)
  {
    if !HasAlternative(m) { PartsOfPlainTypes(m); }
    else if HasDisposition(m, "attachment") { PartsOfAttachedAlternatives(m); }
    else { PartsOfAlternatives(m); }
  }

  lemma TextOfMultipart(m: Mail, subtype: string, parts: seq<Entity>)
    requires IsSound(m) && BreakFree(subtype) && AllFit(m, '1', parts) && Layout(m) == Top(m, subtype, parts)
    requires MessageText(m) == Unlines(m.le, TopHeader(m, subtype) + [""]) + Unlines(m.le, BodyLines(Layout(m)))
    ensures IsTextOf(m.le, MessageText(m), Received(m))
  {
    TextOfTop(m, subtype, parts);
  }

  lemma TextOfMessage(m: Mail)
    requires IsSound(m)
    ensures IsTextOf(m.le, MessageText(m), Received(m))
  {
    if TypeOf(m).PlainType? {
      TextOfPlain(m);
    } else {
      PartsOfLayout(m);
      LayoutIsTop(m);
      SubtypeIsPlain(TypeOf(m));
      TextOfMultipart(m, Subtype(TypeOf(m)), Layout(m).parts);
    }
  }

  /** The message reads back as its layout, for every message type. */
  lemma SentIsReceived(m: Mail)
    requires IsSound(m)
    ensures Read(Explode(m.le, MessageText(m))) == Some(Received(m))
  {
    TextOfMessage(m);
    ReadPrinted(Received(m));
  }

  // ---- nothing lost, nothing twice ---------------------------------------------------

  /** The leaves of a tree, in the order they are printed. */
  function Leaves(e: Entity): seq<Entity>
    decreases e, 1
  {
    match e
    case Leaf(_, _) => [e]
    case Multi(_, _, _, parts, _) => LeavesOf(parts)
  }

  function LeavesOf(parts: seq<Entity>): seq<Entity>
    decreases parts, 0
  {
    if parts == [] then [] else Leaves(parts[0]) + LeavesOf(parts[1..])
  }

  /** The bodies of the message. An event is printed only with a plain
      alternative. */
  function Texts(m: Mail): seq<Entity> {
    match TypeOf(m)
    case PlainType => [Layout(m)]
    case AltType => Alternatives(m)
    case AltAttachType => [AltLeaf(m), BodyLeaf(m, "text/html", [""])]
    case AltInlineType => [AltLeaf(m), BodyLeaf(m, "text/html", [])]
    case AltInlineAttachType => [AltLeaf(m), BodyLeaf(m, "text/html", [])]
    case _ => [BodyLeaf(m, m.contentType, [])]
  }

  lemma {:induction false} LeavesAppend(a: seq<Entity>, b: seq<Entity>)
    ensures LeavesOf(a + b) == LeavesOf(a) + LeavesOf(b)
  {
    if a == [] {
      assert a + b == b;
    } else {
      assert (a + b)[1..] == a[1..] + b;
      LeavesAppend(a[1..], b);
    }
  }

  lemma LeavesOne(e: Entity)
    ensures LeavesOf([e]) == Leaves(e)
  {
    assert [e][1..] == [];
  }

  lemma {:induction false} LeavesAreParts(parts: seq<Entity>)
    requires forall i :: 0 <= i < |parts| ==> parts[i].Leaf?
    ensures LeavesOf(parts) == parts
  {
    if parts != [] {
      LeavesAreParts(parts[1..]);
      assert parts == [parts[0]] + parts[1..];
    }
  }

  lemma {:induction false} AttachmentsAreLeaves(m: Mail, disposition: string, n: nat)
    requires n <= |m.attachments|
    ensures forall i :: 0 <= i < |AttachmentParts(m, disposition, n)| ==> AttachmentParts(m, disposition, n)[i].Leaf?
    ensures (forall i :: 0 <= i < n ==> m.attachments[i].disposition != disposition) ==>
      AttachmentParts(m, disposition, n) == []
  {
    if n > 0 { AttachmentsAreLeaves(m, disposition, n - 1); }
  }

  lemma PartThenLeaves(part: Entity, rest: seq<Entity>)
    requires forall i :: 0 <= i < |rest| ==> rest[i].Leaf?
    ensures LeavesOf([part] + rest) == Leaves(part) + rest
  {
    LeavesAppend([part], rest);
    LeavesOne(part);
    LeavesAreParts(rest);
  }

  lemma HtmlLeaves(m: Mail, k: char)
    ensures Leaves(HtmlWithInlines(m, k)) == [BodyLeaf(m, "text/html", [])] + Inlines(m)
  {
    AttachmentsAreLeaves(m, "inline", |m.attachments|);
    LeavesAreParts([BodyLeaf(m, "text/html", [])] + Inlines(m));
  }

  lemma AlternativeLeaves(alt: Entity, html: Entity)
    requires alt.Leaf?
    ensures LeavesOf([alt, html]) == [alt] + Leaves(html)
  {
    assert [alt, html] == [alt] + [html];
    LeavesAppend([alt], [html]);
    LeavesOne(alt);
    LeavesOne(html);
  }

  lemma NoneLeft(m: Mail, disposition: string)
    requires !HasDisposition(m, disposition)
    ensures AttachmentParts(m, disposition, |m.attachments|) == []
  {
    AttachmentsAreLeaves(m, disposition, |m.attachments|);
  }

  /** The leaves of the layout are the bodies, the inline attachments and the
      attachments that survive: nothing else, nothing lost, in this order. */
  lemma LayoutLeaves(m: Mail)
    ensures Leaves(Layout(m)) == Texts(m) + Inlines(m) + Attached(m)
  {
    AttachmentsAreLeaves(m, "inline", |m.attachments|);
    AttachmentsAreLeaves(m, "attachment", |m.attachments|);
    if !HasDisposition(m, "inline") { NoneLeft(m, "inline"); }
    if !HasDisposition(m, "attachment") { NoneLeft(m, "attachment"); }
    if HasAlternative(m) { AlternativeLayoutLeaves(m); } else { PlainLayoutLeaves(m); }
  }

  lemma PlainLayoutLeaves(m: Mail)
    requires !HasAlternative(m)
    requires !HasDisposition(m, "inline") ==> Inlines(m) == []
    requires !HasDisposition(m, "attachment") ==> Attached(m) == []
    ensures Leaves(Layout(m)) == Texts(m) + Inlines(m) + Attached(m)
  {
    var text := [BodyLeaf(m, m.contentType, [])];
    if TypeOf(m).InlineType? {
      FlatLeaves(m, text, "inline");
    } else if TypeOf(m).AttachType? {
      FlatLeaves(m, text, "attachment");
      assert text + [] == text;
    } else if TypeOf(m).InlineAttachType? {
      FlatLeaves(m, text, "inline");
      AttachmentsAreLeaves(m, "attachment", |m.attachments|);
      PartThenLeaves(Nested(m, "related", '2', text + Inlines(m), [""]), Attached(m));
    }
  }

  lemma FlatLeaves(m: Mail, text: seq<Entity>, disposition: string)
    requires |text| == 1 && text[0].Leaf?
    ensures var parts := text + AttachmentParts(m, disposition, |m.attachments|); LeavesOf(parts) == parts
  {
    AttachmentsAreLeaves(m, disposition, |m.attachments|);
    LeavesAreParts(text + AttachmentParts(m, disposition, |m.attachments|));
  }

  lemma AltTypeLeaves(m: Mail)
    requires TypeOf(m).AltType?
    ensures Leaves(Layout(m)) == Texts(m)
  {
    LeavesAreParts(Alternatives(m));
  }

  lemma AltInlineTypeLeaves(m: Mail)
    requires TypeOf(m).AltInlineType?
    ensures Leaves(Layout(m)) == Texts(m) + Inlines(m)
  {
    HtmlInAlternative(m);
    AlternativeParts(m);
  }

  lemma HtmlInAlternative(m: Mail)
    ensures LeavesOf([AltLeaf(m), HtmlWithInlines(m, '2')]) == [AltLeaf(m), BodyLeaf(m, "text/html", [])] + Inlines(m)
  {
    AlternativeLeaves(AltLeaf(m), HtmlWithInlines(m, '2'));
    HtmlLeaves(m, '2');
    assert [AltLeaf(m)] + ([BodyLeaf(m, "text/html", [])] + Inlines(m)) ==
      [AltLeaf(m), BodyLeaf(m, "text/html", [])] + Inlines(m);
  }

  lemma AlternativeLayoutLeaves(m: Mail)
    requires HasAlternative(m)
    requires !HasDisposition(m, "inline") ==> Inlines(m) == []
    requires !HasDisposition(m, "attachment") ==> Attached(m) == []
    ensures Leaves(Layout(m)) == Texts(m) + Inlines(m) + Attached(m)
  {
    if HasDisposition(m, "attachment") {
      AttachedAlternativeLeaves(m);
    } else if HasDisposition(m, "inline") {
      AltInlineTypeLeaves(m);
    } else {
      AltTypeLeaves(m);
    }
  }

  lemma MixedLeaves(m: Mail, html: Entity)
    requires Layout(m) == Top(m, "mixed", [Nested(m, "alternative", '2', [AltLeaf(m), html], [""])] + Attached(m))
    ensures Leaves(Layout(m)) == [AltLeaf(m)] + Leaves(html) + Attached(m)
  {
    AttachmentsAreLeaves(m, "attachment", |m.attachments|);
    AlternativeLeaves(AltLeaf(m), html);
    PartThenLeaves(Nested(m, "alternative", '2', [AltLeaf(m), html], [""]), Attached(m));
  }

  lemma AttachedAlternativeLeaves(m: Mail)
    requires HasAlternative(m) && HasDisposition(m, "attachment")
    requires !HasDisposition(m, "inline") ==> Inlines(m) == []
    ensures Leaves(Layout(m)) == Texts(m) + Inlines(m) + Attached(m)
  {
    if HasDisposition(m, "inline") {
      HtmlLeaves(m, '3');
      MixedLeaves(m, HtmlWithInlines(m, '3'));
      assert [AltLeaf(m)] + ([BodyLeaf(m, "text/html", [])] + Inlines(m)) == Texts(m) + Inlines(m);
    } else {
      MixedLeaves(m, BodyLeaf(m, "text/html", [""]));
    }
  }

  lemma {:induction false} SurvivorsInOrder(atts: seq<Attachment>, disposition: string, n: nat)
    requires n <= |atts|
    ensures var at := Survivors(atts, disposition, n);
      && (forall k, l :: 0 <= k < l < |at| ==> at[k] < at[l])
      && (forall i :: i in at <==> 0 <= i < n && atts[i].disposition == disposition && Survives(atts, i))
  {
    if n > 0 {
      SurvivorsInOrder(atts, disposition, n - 1);
      var before := Survivors(atts, disposition, n - 1);
      assert forall k :: 0 <= k < |before| ==> before[k] in before;
    }
  }

  /** Each attachment of the disposition that survives is printed at one place,
      in the order of the list, and nothing else is. */
  lemma EachSurvivorOnce(m: Mail, disposition: string)
    ensures var at, parts := Survivors(m.attachments, disposition, |m.attachments|),
      AttachmentParts(m, disposition, |m.attachments|);
      && |parts| == |at| && (forall k :: 0 <= k < |at| ==> parts[k] == AttachmentLeaf(m, m.attachments[at[k]]))
      && (forall k, l :: 0 <= k < l < |at| ==> at[k] < at[l])
      && (forall i :: i in at <==>
        0 <= i < |m.attachments| && m.attachments[i].disposition == disposition && Survives(m.attachments, i))
  {
    SurvivorsInOrder(m.attachments, disposition, |m.attachments|);
    var at := Survivors(m.attachments, disposition, |m.attachments|);
    LengthOfParts(m, disposition, |m.attachments|);
    forall k | 0 <= k < |at|
      ensures AttachmentParts(m, disposition, |m.attachments|)[k] == AttachmentLeaf(m, m.attachments[at[k]])
    {
      PartOfSurvivor(m, disposition, |m.attachments|, k);
    }
  }

  lemma {:induction false} LengthOfParts(m: Mail, disposition: string, n: nat)
    requires n <= |m.attachments|
    ensures |AttachmentParts(m, disposition, n)| == |Survivors(m.attachments, disposition, n)|
  {
    if n > 0 { LengthOfParts(m, disposition, n - 1); }
  }

  lemma NextSurvivor(m: Mail, disposition: string, n: nat)
    requires n < |m.attachments|
    ensures var atts := m.attachments; var keeps := atts[n].disposition == disposition && Survives(atts, n);
      && Survivors(atts, disposition, n + 1) == Survivors(atts, disposition, n) + (if keeps then [n] else [])
      && AttachmentParts(m, disposition, n + 1) ==
        AttachmentParts(m, disposition, n) + (if keeps then [AttachmentLeaf(m, atts[n])] else [])
  {
  }

  /** A relation that holds place by place. */
  predicate HoldPairwise(parts: seq<Entity>, at: seq<nat>, holds: (Entity, nat) -> bool) {
    |parts| == |at| && forall k :: 0 <= k < |at| ==> holds(parts[k], at[k])
  }

  lemma HoldPairwiseNext(parts: seq<Entity>, at: seq<nat>, part: Entity, i: nat, keeps: bool,
      holds: (Entity, nat) -> bool)
    requires HoldPairwise(parts, at, holds) && holds(part, i)
    ensures HoldPairwise(parts + (if keeps then [part] else []), at + (if keeps then [i] else []), holds)
  {
  }

  predicate HoldsOfAll(m: Mail, holds: (Entity, nat) -> bool) {
    forall i :: 0 <= i < |m.attachments| ==> holds(AttachmentLeaf(m, m.attachments[i]), i)
  }

  lemma HoldsOfOne(m: Mail, holds: (Entity, nat) -> bool, i: nat)
    requires HoldsOfAll(m, holds) && i < |m.attachments|
    ensures holds(AttachmentLeaf(m, m.attachments[i]), i)
  {
  }

  /** What holds of every attachment's part and its position holds of the parts
      and the positions of the survivors. */
  lemma EachSurvivor(m: Mail, disposition: string, n: nat, holds: (Entity, nat) -> bool)
    requires n <= |m.attachments|
    requires HoldsOfAll(m, holds)
    ensures HoldPairwise(AttachmentParts(m, disposition, n), Survivors(m.attachments, disposition, n), holds)
  {
    for i := 0 to n
      invariant HoldPairwise(AttachmentParts(m, disposition, i), Survivors(m.attachments, disposition, i), holds)
    {
      HoldsOfOne(m, holds, i);
      EachSurvivorNext(m, disposition, i, holds);
    }
  }

  lemma EachSurvivorNext(m: Mail, disposition: string, n: nat, holds: (Entity, nat) -> bool)
    requires n < |m.attachments| && holds(AttachmentLeaf(m, m.attachments[n]), n)
    requires HoldPairwise(AttachmentParts(m, disposition, n), Survivors(m.attachments, disposition, n), holds)
    ensures HoldPairwise(AttachmentParts(m, disposition, n + 1), Survivors(m.attachments, disposition, n + 1), holds)
  {
    NextSurvivor(m, disposition, n);
    HoldPairwiseNext(AttachmentParts(m, disposition, n), Survivors(m.attachments, disposition, n),
      AttachmentLeaf(m, m.attachments[n]), n,
      m.attachments[n].disposition == disposition && Survives(m.attachments, n), holds);
  }

  lemma PartOfSurvivor(m: Mail, disposition: string, n: nat, k: nat)
    requires n <= |m.attachments| && k < |Survivors(m.attachments, disposition, n)|
    ensures k < |AttachmentParts(m, disposition, n)|
    ensures AttachmentParts(m, disposition, n)[k] ==
      AttachmentLeaf(m, m.attachments[Survivors(m.attachments, disposition, n)[k]])
  {
    EachSurvivor(m, disposition, n, (e: Entity, i: nat) => i < |m.attachments| &&
      e == AttachmentLeaf(m, m.attachments[i]));
  }

  /** An attachment is dropped only for an earlier one that is printed: the same,
      or an inline one with the same content id. */
  lemma {:induction false} DroppedForAnother(atts: seq<Attachment>, i: nat) returns (j: nat)
    requires i < |atts| && !Survives(atts, i)
    ensures j < i && Survives(atts, j) && atts[j].disposition == atts[i].disposition
    ensures if atts[i].disposition == "inline" then atts[j].cid == atts[i].cid else atts[j] == atts[i]
    decreases i
  {
    j :| 0 <= j < i && atts[j].disposition == atts[i].disposition &&
      !(atts[j] != atts[i] && (atts[i].disposition == "inline" ==> atts[j].cid != atts[i].cid));
    if !Survives(atts, j) {
      j := DroppedForAnother(atts, j);
    }
  }

  // ---- the calendar event --------------------------------------------------------------

  lemma {:induction false} SameAttachments(m: Mail, n: Mail, disposition: string, k: nat)
    requires n == m.(ical := n.ical) && k <= |m.attachments|
    ensures AttachmentParts(n, disposition, k) == AttachmentParts(m, disposition, k)
  {
    if k > 0 {
      SameAttachments(m, n, disposition, k - 1);
      SameLeaf(m, n, m.attachments[k - 1]);
    }
  }

  lemma SameLeaf(m: Mail, n: Mail, a: Attachment)
    requires n == m.(ical := n.ical)
    ensures AttachmentLeaf(n, a) == AttachmentLeaf(m, a)
  {
  }

  lemma SameTexts(m: Mail, n: Mail, contentType: string, extra: seq<string>)
    requires n == m.(ical := n.ical)
    ensures BodyLeaf(n, contentType, extra) == BodyLeaf(m, contentType, extra) && AltLeaf(n) == AltLeaf(m)
  {
  }

  lemma SameRelated(m: Mail, n: Mail, k: char)
    requires n == m.(ical := n.ical)
    ensures HtmlWithInlines(n, k) == HtmlWithInlines(m, k) && Inlines(n) == Inlines(m) && Attached(n) == Attached(m)
  {
    SameTexts(m, n, "text/html", []);
    SameAttachments(m, n, "inline", |m.attachments|);
    SameAttachments(m, n, "attachment", |m.attachments|);
  }

  lemma AltWithoutEvent(m: Mail, n: Mail)
    requires n == m.(ical := "") && TypeOf(m).AltType?
    ensures Layout(n) == Layout(m) <==> !HasIcal(m)
  {
    SameTexts(m, n, "text/html", [""]);
    assert TypeOf(n).AltType?;
    assert Layout(m).parts == Alternatives(m) && Layout(n).parts == Alternatives(n);
  }

  lemma OtherWithoutEvent(m: Mail, n: Mail)
    requires n == m.(ical := "") && !TypeOf(m).AltType?
    ensures Layout(n) == Layout(m)
  {
    SameTexts(m, n, m.contentType, []);
    SameTexts(m, n, "text/html", [""]);
    SameRelated(m, n, '2');
    SameRelated(m, n, '3');
    assert TypeOf(n) == TypeOf(m);
  }

  /** A message is the same without its event exactly when it has none, or has
      no alternative body, an inline part or an attachment. */
  lemma EventIsPrinted(m: Mail)
    ensures Layout(m.(ical := "")) == Layout(m) <==>
      !(HasIcal(m) && HasAlternative(m) && !HasDisposition(m, "inline") && !HasDisposition(m, "attachment"))
  {
    if TypeOf(m).AltType? { AltWithoutEvent(m, m.(ical := "")); } else { OtherWithoutEvent(m, m.(ical := "")); }
  }

  // ---- names of attachments ------------------------------------------------------------

  predicate AreWordsOfLine(words: seq<string>) {
    forall i :: 0 <= i < |words| ==> BreakFree(words[i])
  }

  /** The first word on a line of its own, the others indented. */
  predicate AreOnLines(lines: seq<string>, words: seq<string>) {
    |lines| == |words| > 0 && lines[0] == words[0] && forall i :: 1 <= i < |words| ==> lines[i] == " " + words[i]
  }

  lemma {:induction false} WordsOnLines(le: LineEnding, words: seq<string>)
    requires words != [] && AreWordsOfLine(words)
    ensures AreOnLines(Explode(le, Implode(le + " ", words)), words)
  {
    if |words| == 1 {
      OneLineIs(le, words[0]);
    } else {
      var rest := Implode(le + " ", words[1..]);
      ImplodeCons(le + " ", words[0], words[1..]);
      assert words == [words[0]] + words[1..];
      WordThenRest(le, words[0], rest);
      WordsOnLines(le, words[1..]);
    }
  }

  lemma WordThenRest(le: LineEnding, word: string, rest: string)
    requires BreakFree(word)
    ensures Explode(le, word + (le + " ") + rest) == [word, " " + Explode(le, rest)[0]] + Explode(le, rest)[1..]
  {
    ExplodePrefix(le, word, le + (" " + rest));
    ExplodePrefix(le, " ", rest);
    assert (le + (" " + rest))[|le|..] == " " + rest;
    Assoc(word, le + " ", rest);
    Assoc(le, " ", rest);
    assert word + "" == word;
  }

  lemma {:induction false} TokensAreBreakFree(h: string)
    ensures AreWordsOfLine(HeaderReader.Tokens(h))
    decreases |h|
  {
    if h != "" {
      if HeaderReader.IsBlank(h[0]) {
        TokensAreBreakFree(h[1..]);
      } else {
        TokenIsBreakFree(h);
        TokensAreBreakFree(h[HeaderReader.TokenLength(h)..]);
      }
    }
  }

  lemma {:induction false} TokenIsBreakFree(h: string)
    ensures BreakFree(h[..HeaderReader.TokenLength(h)])
    decreases |h|
  {
    if h != "" && !HeaderReader.IsBlank(h[0]) {
      TokenIsBreakFree(h[1..]);
      assert h[..HeaderReader.TokenLength(h)] == [h[0]] + h[1..][..HeaderReader.TokenLength(h[1..])];
    }
  }

  /** What `encodeHeader` gives for a name without line breaks is folded as the
      headers of attachments need it: encoded, or the name itself. */
  lemma EncodedNamesAreFolded(le: LineEnding, name: string, h: string, charSet: string, whole: bool)
    requires BreakFree(name)
    requires h == name || HeaderEncoder.IsEncodedHeader(h, QEncoding.Text, charSet, le, name, whole)
    ensures IsFolded(le, h)
  {
    if h == name {
      OneLineIs(le, name);
    } else {
      TokensAreBreakFree(h);
      WordsOnLines(le, HeaderReader.Tokens(h));
    }
  }
}
