/** From the composed message to the receiving server: the MIME tree survives
    the DATA phase. */
module Delivery {
  import opened Strings
  import opened Wrappers
  import opened MimeReader
  import opened MimeLayout
  import opened MimeRoundTrip
  import Smtp

  predicate AreBreakFree(lines: seq<string>) {
    forall i :: 0 <= i < |lines| ==> BreakFree(lines[i])
  }

  // ---- line breaks of other kinds ------------------------------------------------

  /** The lines the SMTP client makes of some lines of the text: it takes all kinds
      of breaks for the end of a line. */
  function Normal(le: LineEnding, lines: seq<string>): seq<string> {
    Explode("\n", Unix(Implode(le, lines)))
  }

  lemma {:induction false} ImplodeAppend(sep: string, a: seq<string>, b: seq<string>)
    requires a != [] && b != []
    ensures Implode(sep, a + b) == Implode(sep, a) + (sep + Implode(sep, b))
  {
    if |a| == 1 {
      ImplodeCons(sep, a[0], b);
      assert a + b == [a[0]] + b;
      Assoc(a[0], sep, Implode(sep, b));
    } else {
      assert a + b == [a[0]] + (a[1..] + b) && a == [a[0]] + a[1..];
      ImplodeCons(sep, a[0], a[1..] + b);
      ImplodeCons(sep, a[0], a[1..]);
      ImplodeAppend(sep, a[1..], b);
      Assoc(a[0] + sep, Implode(sep, a[1..]), sep + Implode(sep, b));
    }
  }

  /** A carriage return and a line feed that belong to one break. */
  predicate IsSeam(a: string, b: string) {
    a != "" && a[|a| - 1] == '\r' && b != "" && b[0] == '\n'
  }

  lemma {:induction false} UnixAppend(a: string, b: string)
    requires !IsSeam(a, b)
    ensures Unix(a + b) == Unix(a) + Unix(b)
    decreases |a|
  {
    var all := a + b;
    if a == "" {
      assert all == b;
    } else if CRLF <= a {
      assert all[..2] == a[..2] && all[2..] == a[2..] + b;
      UnixAppend(a[2..], b);
      Assoc("\n", Unix(a[2..]), Unix(b));
    } else {
      assert all[0] == a[0] && all[1..] == a[1..] + b;
      NoSeam(a, b);
      UnixAppend(a[1..], b);
      Assoc(if a[0] == '\r' then "\n" else [a[0]], Unix(a[1..]), Unix(b));
    }
  }

  lemma NoSeam(a: string, b: string)
    requires a != "" && !(CRLF <= a) && !IsSeam(a, b)
    ensures !(CRLF <= a + b) && !IsSeam(a[1..], b)
  {
    var all := a + b;
    assert all[0] == a[0];
    if |a| > 1 {
      assert all[..2] == a[..2];
    } else if b != "" {
      assert all[1] == b[0];
      assert CRLF[0] == '\r' && CRLF[1] == '\n';
    }
  }

  lemma {:induction false} ExplodeAppend(c: char, x: string, y: string)
    ensures Explode([c], x + ([c] + y)) == Explode([c], x) + Explode([c], y)
  {
    var all := x + ([c] + y);
    if x == "" {
      assert all == [c] + y && all[1..] == y;
    } else {
      CharPrefix(c, x);
      CharPrefix(c, all);
      assert all[0] == x[0] && all[1..] == x[1..] + ([c] + y);
      ExplodeAppend(c, x[1..], y);
    }
  }

  /** No line feed that would join a carriage return before it. */
  predicate StartsPlain(le: LineEnding, lines: seq<string>) {
    lines != [] && (le == "\r" ==> lines[0] == "" || lines[0][0] != '\n')
  }

  lemma ImplodeStarts(le: LineEnding, lines: seq<string>)
    requires StartsPlain(le, lines)
    ensures !IsSeam(le, Implode(le, lines))
  {
    if |lines| > 1 {
      ImplodeCons(le, lines[0], lines[1..]);
      assert lines == [lines[0]] + lines[1..];
    }
  }

  lemma NormalJoin(le: LineEnding, a: seq<string>, b: seq<string>)
    requires a != [] && StartsPlain(le, b) && !IsSeam(Implode(le, a), le + Implode(le, b))
    ensures Normal(le, a + b) == Normal(le, a) + Normal(le, b)
  {
    var x, y := Implode(le, a), Implode(le, b);
    ImplodeAppend(le, a, b);
    UnixAppend(x, le + y);
    ImplodeStarts(le, b);
    UnixAppend(le, y);
    UnixOfEnding(le);
    ExplodeAppend('\n', Unix(x), Unix(y));
    assert ['\n'] == "\n";
  }

  lemma UnixOfEnding(le: LineEnding)
    ensures Unix(le) == "\n"
  {
    if le == CRLF { assert le[2..] == ""; } else { assert le[1..] == ""; }
  }

  lemma NormalOne(le: LineEnding, x: string)
    requires BreakFree(x)
    ensures Normal(le, [x]) == [x]
  {
    UnixOfBreakFree(x);
    ExplodeAbsent("\n", x);
  }

  lemma NormalCons(le: LineEnding, x: string, rest: seq<string>)
    requires BreakFree(x) && StartsPlain(le, rest)
    ensures Normal(le, [x] + rest) == [x] + Normal(le, rest) && StartsPlain(le, [x] + rest)
  {
    NormalJoin(le, [x], rest);
    NormalOne(le, x);
  }

  /** Lines without other breaks in front stay as they are. */
  lemma {:induction false} NormalFront(le: LineEnding, front: seq<string>, rest: seq<string>)
    requires AreBreakFree(front) && StartsPlain(le, rest)
    ensures Normal(le, front + rest) == front + Normal(le, rest) && StartsPlain(le, front + rest)
  {
    if front == [] {
      assert front + rest == rest;
    } else {
      NormalFront(le, front[1..], rest);
      NormalCons(le, front[0], front[1..] + rest);
      Smtp.LinesAssoc([front[0]], front[1..], rest);
      Smtp.LinesAssoc([front[0]], front[1..], Normal(le, rest));
      assert front == [front[0]] + front[1..];
    }
  }

  lemma NormalOfPlain(le: LineEnding, lines: seq<string>)
    requires AreBreakFree(lines) && lines != []
    ensures Normal(le, lines) == lines
  {
    var n := |lines| - 1;
    assert lines == lines[..n] + [lines[n]];
    assert BreakFree(lines[n]);
    NormalFront(le, lines[..n], [lines[n]]);
    NormalOne(le, lines[n]);
  }

  /** After a blank line nothing is joined. */
  lemma NormalAfterBlank(le: LineEnding, a: seq<string>, b: seq<string>)
    requires a != [] && a[|a| - 1] == "" && StartsPlain(le, b)
    ensures Normal(le, a + b) == Normal(le, a) + Normal(le, b)
  {
    if |a| > 1 {
      ImplodeSnoc(le, a[..|a| - 1], "");
      assert a == a[..|a| - 1] + [""];
    }
    NormalJoin(le, a, b);
  }

  /** The entity with the lines of its bodies told apart as the client does. */
  function Normalised(le: LineEnding, e: Entity): Entity
    decreases e, 1
  {
    match e
    case Leaf(header, body) => Leaf(header, Normal(le, body))
    case Multi(header, b, preamble, parts, epilogue) => Multi(header, b, preamble, NormalisedParts(le, parts), epilogue)
  }

  function NormalisedParts(le: LineEnding, parts: seq<Entity>): seq<Entity>
    decreases parts, 0
  {
    if parts == [] then [] else [Normalised(le, parts[0])] + NormalisedParts(le, parts[1..])
  }

  /** No other breaks in the lines that are not in a body. */
  predicate HasPlainFrame(le: LineEnding, e: Entity)
    decreases e, 1
  {
    AreBreakFree(e.header) &&
    match e
    case Leaf(_, body) => StartsPlain(le, body)
    case Multi(_, b, preamble, parts, epilogue) =>
      BreakFree(b) && AreBreakFree(preamble) && AreBreakFree(epilogue) && HavePlainFrames(le, parts)
  }

  predicate HavePlainFrames(le: LineEnding, parts: seq<Entity>)
    decreases parts, 0
  {
    parts == [] || (HasPlainFrame(le, parts[0]) && HavePlainFrames(le, parts[1..]))
  }

  /** Each part, and each part of a part, ends with a blank line. */
  predicate HasBlankEnds(e: Entity)
    decreases e, 1
  {
    e.Multi? ==> HaveBlankEnds(e.parts)
  }

  predicate HaveBlankEnds(parts: seq<Entity>)
    decreases parts, 0
  {
    parts == [] || (EndsBlank(parts[0]) && HasBlankEnds(parts[0]) && HaveBlankEnds(parts[1..]))
  }

  predicate EndsBlank(e: Entity) {
    match e
    case Leaf(_, body) => body != [] && body[|body| - 1] == ""
    case Multi(_, _, _, _, epilogue) => epilogue != [] && epilogue[|epilogue| - 1] == ""
  }

  lemma LinesEndBlank(e: Entity)
    requires EndsBlank(e)
    ensures Lines(e) != [] && Lines(e)[|Lines(e)| - 1] == ""
  {
  }

  lemma LinesStartPlain(le: LineEnding, header: seq<string>, rest: seq<string>)
    requires AreBreakFree(header)
    ensures StartsPlain(le, header + [""] + rest)
  {
    if header != [] { assert (header + [""] + rest)[0] == header[0] && BreakFree(header[0]); }
  }

  /** What the client makes of the lines of an entity is the normalised entity,
      printed. */
  lemma {:induction false} NormalOfEntity(le: LineEnding, e: Entity)
    requires HasPlainFrame(le, e) && HasBlankEnds(e)
    ensures Normal(le, Lines(e)) == Lines(Normalised(le, e)) && StartsPlain(le, Lines(e))
    decreases e, 1
  {
    if e.Leaf? {
      NormalFront(le, e.header + [""], e.body);
      LinesStartPlain(le, e.header, e.body);
    } else {
      var tail := ["--" + e.boundary + "--"] + e.epilogue;
      NormalOfParts(le, e.boundary, e.parts, tail);
      NormalFront(le, e.header + [""] + e.preamble, PartLines(e.boundary, e.parts) + tail);
      Smtp.LinesAssoc(e.header + [""], e.preamble, PartLines(e.boundary, e.parts) + tail);
      Smtp.LinesAssoc(e.header + [""], e.preamble, PartLines(e.boundary, NormalisedParts(le, e.parts)) + tail);
      LinesStartPlain(le, e.header, BodyLines(e));
    }
  }

  lemma {:induction false} NormalOfParts(le: LineEnding, b: string, parts: seq<Entity>, tail: seq<string>)
    requires HavePlainFrames(le, parts) && HaveBlankEnds(parts) && BreakFree(b) && tail != [] && AreBreakFree(tail)
    ensures Normal(le, PartLines(b, parts) + tail) == PartLines(b, NormalisedParts(le, parts)) + tail
    ensures StartsPlain(le, PartLines(b, parts) + tail)
    decreases parts, 0
  {
    if parts == [] {
      NormalOfPlain(le, tail);
      assert PartLines(b, parts) + tail == tail && BreakFree(tail[0]);
    } else {
      var first, rest := Lines(parts[0]), PartLines(b, parts[1..]) + tail;
      NormalOfEntity(le, parts[0]);
      NormalOfParts(le, b, parts[1..], tail);
      LinesEndBlank(parts[0]);
      NormalOfPart(le, "--" + b, first, rest);
      OnePartMore(b, parts, tail);
      OnePartMore(b, NormalisedParts(le, parts), tail);
      assert NormalisedParts(le, parts)[1..] == NormalisedParts(le, parts[1..]);
    }
  }

  lemma NormalOfPart(le: LineEnding, delimiter: string, first: seq<string>, rest: seq<string>)
    requires BreakFree(delimiter) && first != [] && first[|first| - 1] == "" && StartsPlain(le, first) &&
      StartsPlain(le, rest)
    ensures Normal(le, [delimiter] + (first + rest)) == [delimiter] + (Normal(le, first) + Normal(le, rest))
    ensures StartsPlain(le, [delimiter] + (first + rest))
  {
    NormalAfterBlank(le, first, rest);
    StartsAsFirst(le, first, rest);
    NormalFront(le, [delimiter], first + rest);
    assert BreakFree(([delimiter] + (first + rest))[0]);
  }

  lemma StartsAsFirst(le: LineEnding, a: seq<string>, b: seq<string>)
    requires StartsPlain(le, a)
    ensures StartsPlain(le, a + b)
  {
    assert (a + b)[0] == a[0];
  }

  lemma OnePartMore(b: string, parts: seq<Entity>, tail: seq<string>)
    requires parts != []
    ensures PartLines(b, parts) + tail == ["--" + b] + (Lines(parts[0]) + (PartLines(b, parts[1..]) + tail))
  {
    Smtp.LinesAssoc(["--" + b], Lines(parts[0]) + PartLines(b, parts[1..]), tail);
    Smtp.LinesAssoc(Lines(parts[0]), PartLines(b, parts[1..]), tail);
  }

  /** Where there are no other breaks the entity is normalised as it is. */
  lemma {:induction false} NormalisedIsSame(le: LineEnding, e: Entity)
    requires AreBreakFree(Lines(e)) && HasBlankEnds(e) && (e.Leaf? ==> e.body != [])
    ensures HasPlainFrame(le, e) && Normalised(le, e) == e
    decreases e, 1
  {
    if e.Leaf? {
      BreakFreeParts(e.header + [""], e.body);
      BreakFreeParts(e.header, [""]);
      NormalOfPlain(le, e.body);
      assert BreakFree(e.body[0]);
    } else {
      var tail := ["--" + e.boundary + "--"] + e.epilogue;
      BreakFreeParts(e.header + [""], BodyLines(e));
      BreakFreeParts(e.header, [""]);
      BreakFreeParts(e.preamble, PartLines(e.boundary, e.parts) + tail);
      BreakFreeParts(PartLines(e.boundary, e.parts), tail);
      BreakFreeParts(["--" + e.boundary + "--"], e.epilogue);
      BoundaryIsBreakFree(e.boundary, tail[0]);
      NormalisedAreSame(le, e.boundary, e.parts);
    }
  }

  lemma {:induction false} NormalisedAreSame(le: LineEnding, b: string, parts: seq<Entity>)
    requires AreBreakFree(PartLines(b, parts)) && HaveBlankEnds(parts)
    ensures HavePlainFrames(le, parts) && NormalisedParts(le, parts) == parts
    decreases parts, 0
  {
    if parts != [] {
      BreakFreeParts(["--" + b], Lines(parts[0]) + PartLines(b, parts[1..]));
      BreakFreeParts(Lines(parts[0]), PartLines(b, parts[1..]));
      NormalisedIsSame(le, parts[0]);
      NormalisedAreSame(le, b, parts[1..]);
    }
  }

  lemma BreakFreeParts(a: seq<string>, b: seq<string>)
    ensures AreBreakFree(a + b) <==> AreBreakFree(a) && AreBreakFree(b)
  {
    assert forall i :: 0 <= i < |a| ==> (a + b)[i] == a[i];
    assert forall i :: 0 <= i < |b| ==> (a + b)[|a| + i] == b[i];
  }

  lemma BoundaryIsBreakFree(b: string, line: string)
    requires BreakFree(line) && line == "--" + b + "--"
    ensures BreakFree(b)
  {
    assert forall i :: 0 <= i < |b| ==> line[i + 2] == b[i];
  }

  // The layouts: every part ends with a blank line.

  lemma {:induction false} BlankEndsAppend(a: seq<Entity>, b: seq<Entity>)
    requires HaveBlankEnds(a) && HaveBlankEnds(b)
    ensures HaveBlankEnds(a + b)
  {
    if a == [] {
      assert a + b == b;
    } else {
      assert (a + b)[1..] == a[1..] + b;
      BlankEndsAppend(a[1..], b);
    }
  }

  lemma OneBlankEnd(e: Entity)
    requires EndsBlank(e) && HasBlankEnds(e)
    ensures HaveBlankEnds([e])
  {
    assert [e][1..] == [];
  }

  lemma {:induction false} AttachmentsEndBlank(m: Mail, disposition: string, n: nat)
    requires n <= |m.attachments|
    ensures HaveBlankEnds(AttachmentParts(m, disposition, n))
  {
    if n > 0 {
      AttachmentsEndBlank(m, disposition, n - 1);
      OneBlankEnd(AttachmentLeaf(m, m.attachments[n - 1]));
      BlankEndsAppend(AttachmentParts(m, disposition, n - 1), [AttachmentLeaf(m, m.attachments[n - 1])]);
    }
  }

  lemma TextEndsBlank(m: Mail, contentType: string, extra: seq<string>)
    requires extra == [] || extra == [""]
    ensures HaveBlankEnds([AltLeaf(m)]) && HaveBlankEnds([IcalLeaf(m)]) &&
      HaveBlankEnds([BodyLeaf(m, contentType, extra)])
  {
    OneBlankEnd(AltLeaf(m));
    OneBlankEnd(IcalLeaf(m));
    OneBlankEnd(BodyLeaf(m, contentType, extra));
  }

  lemma NestedEndsBlank(m: Mail, subtype: string, k: char, parts: seq<Entity>, epilogue: seq<string>)
    requires HaveBlankEnds(parts) && (epilogue == [""] || epilogue == ["", ""])
    ensures HaveBlankEnds([Nested(m, subtype, k, parts, epilogue)])
  {
    OneBlankEnd(Nested(m, subtype, k, parts, epilogue));
  }

  /** The body and its inline parts, and as one part. */
  lemma RelatedEndsBlank(m: Mail, k: char, contentType: string, epilogue: seq<string>)
    requires epilogue == [""] || epilogue == ["", ""]
    ensures HaveBlankEnds([BodyLeaf(m, contentType, [])] + Inlines(m))
    ensures HaveBlankEnds([Nested(m, "related", k, [BodyLeaf(m, contentType, [])] + Inlines(m), epilogue)])
  {
    TextEndsBlank(m, contentType, []);
    AttachmentsEndBlank(m, "inline", |m.attachments|);
    BlankEndsAppend([BodyLeaf(m, contentType, [])], Inlines(m));
    NestedEndsBlank(m, "related", k, [BodyLeaf(m, contentType, [])] + Inlines(m), epilogue);
  }

  lemma WithAttachedEndsBlank(m: Mail, part: Entity)
    requires HaveBlankEnds([part])
    ensures HaveBlankEnds([part] + Attached(m))
  {
    AttachmentsEndBlank(m, "attachment", |m.attachments|);
    BlankEndsAppend([part], Attached(m));
  }

  /** Two parts of an alternative, and as one part. */
  lemma PairEndsBlank(m: Mail, html: Entity)
    requires HaveBlankEnds([html])
    ensures HaveBlankEnds([AltLeaf(m), html])
    ensures HaveBlankEnds([Nested(m, "alternative", '2', [AltLeaf(m), html], [""])])
  {
    TextEndsBlank(m, "text/html", []);
    assert [AltLeaf(m), html] == [AltLeaf(m)] + [html];
    BlankEndsAppend([AltLeaf(m)], [html]);
    NestedEndsBlank(m, "alternative", '2', [AltLeaf(m), html], [""]);
  }

  lemma LayoutHasBlankEnds(m: Mail)
    ensures HasBlankEnds(Layout(m))
  {
    if HasAlternative(m) { AlternativeHasBlankEnds(m); } else { PlainHasBlankEnds(m); }
  }

  lemma ReceivedHasBlankEnds(m: Mail)
    ensures HasBlankEnds(Received(m)) && (Received(m).Leaf? ==> Received(m).body != [])
  {
    LayoutHasBlankEnds(m);
    if TypeOf(m).PlainType? { assert Layout(m).Leaf? && Layout(m).body != []; }
  }

  lemma PlainHasBlankEnds(m: Mail)
    requires !HasAlternative(m)
    ensures HasBlankEnds(Layout(m))
  {
    if HasDisposition(m, "inline") && HasDisposition(m, "attachment") {
      RelatedEndsBlank(m, '2', m.contentType, [""]);
      WithAttachedEndsBlank(m, Nested(m, "related", '2', [BodyLeaf(m, m.contentType, [])] + Inlines(m), [""]));
    } else if HasDisposition(m, "inline") {
      RelatedEndsBlank(m, '2', m.contentType, [""]);
    } else if HasDisposition(m, "attachment") {
      TextEndsBlank(m, m.contentType, []);
      WithAttachedEndsBlank(m, BodyLeaf(m, m.contentType, []));
    }
  }

  lemma AlternativeHasBlankEnds(m: Mail)
    requires HasAlternative(m)
    ensures HasBlankEnds(Layout(m))
  {
    if HasDisposition(m, "attachment") {
      MixedHasBlankEnds(m);
    } else if HasDisposition(m, "inline") {
      RelatedEndsBlank(m, '2', "text/html", ["", ""]);
      PairEndsBlank(m, HtmlWithInlines(m, '2'));
      AlternativeParts(m);
    } else {
      AlternativesEndBlank(m);
      AlternativeParts(m);
    }
  }

  lemma MixedHasBlankEnds(m: Mail)
    requires HasAlternative(m) && HasDisposition(m, "attachment")
    ensures HasBlankEnds(Layout(m))
  {
    TextEndsBlank(m, "text/html", [""]);
    RelatedEndsBlank(m, '3', "text/html", ["", ""]);
    PairEndsBlank(m, HtmlPart(m));
    WithAttachedEndsBlank(m, Nested(m, "alternative", '2', [AltLeaf(m), HtmlPart(m)], [""]));
    MixedLayout(m);
  }

  lemma AlternativesEndBlank(m: Mail)
    ensures HaveBlankEnds(Alternatives(m))
  {
    TextEndsBlank(m, "text/html", []);
    TextEndsBlank(m, "text/html", [""]);
    BlankEndsAppend([AltLeaf(m)], [BodyLeaf(m, "text/html", [""])]);
    BlankEndsAppend([BodyLeaf(m, "text/html", [])], [IcalLeaf(m)]);
    BlankEndsAppend([AltLeaf(m)], [BodyLeaf(m, "text/html", [])] + [IcalLeaf(m)]);
    assert Alternatives(m) == [AltLeaf(m)] + (if HasIcal(m) then [BodyLeaf(m, "text/html", [])] + [IcalLeaf(m)]
                                              else [BodyLeaf(m, "text/html", [""])]);
  }

  // ---- long lines ---------------------------------------------------------------

  /** What is sent for lines that are not in the header of the message. */
  function CutLines(lines: seq<string>): seq<string> {
    Smtp.Sent(Smtp.SplitLines(lines, false))
  }

  /** The entity with the long lines of its bodies cut. */
  function Cut(e: Entity): Entity
    decreases e, 1
  {
    match e
    case Leaf(header, body) => Leaf(header, CutLines(body))
    case Multi(header, b, preamble, parts, epilogue) => Multi(header, b, preamble, CutParts(parts), epilogue)
  }

  function CutParts(parts: seq<Entity>): seq<Entity>
    decreases parts, 0
  {
    if parts == [] then [] else [Cut(parts[0])] + CutParts(parts[1..])
  }

  /** All lines but those of the bodies are within the limit, and no line of a
      header is blank. */
  predicate HasShortFrame(e: Entity)
    decreases e, 1
  {
    Smtp.AreShort(e.header) && NoBlanks(e.header) &&
    match e
    case Leaf(_, _) => true
    case Multi(_, b, preamble, parts, epilogue) =>
      |b| + 4 <= Smtp.MAX_LINE_LENGTH && Smtp.AreShort(preamble) && Smtp.AreShort(epilogue) && HaveShortFrames(parts)
  }

  predicate HaveShortFrames(parts: seq<Entity>)
    decreases parts, 0
  {
    parts == [] || (HasShortFrame(parts[0]) && HaveShortFrames(parts[1..]))
  }

  lemma SentCons(line: string, rest: seq<string>, inHeaders: bool)
    ensures var h := inHeaders && line != "";
      Smtp.Sent(Smtp.SplitLines([line] + rest, inHeaders)) ==
        Smtp.Texts(Smtp.SplitLine(line, h)) + Smtp.Sent(Smtp.SplitLines(rest, h))
  {
    var h := inHeaders && line != "";
    assert ([line] + rest)[1..] == rest;
    assert ([Smtp.SplitLine(line, h)] + Smtp.SplitLines(rest, h))[1..] == Smtp.SplitLines(rest, h);
  }

  lemma {:induction false} CutAppend(a: seq<string>, b: seq<string>)
    ensures CutLines(a + b) == CutLines(a) + CutLines(b)
  {
    if a == [] {
      assert a + b == b;
    } else {
      CutAppend(a[1..], b);
      CutFirst(a[0], a[1..], b);
      assert a == [a[0]] + a[1..];
    }
  }

  lemma CutFirst(line: string, rest: seq<string>, b: seq<string>)
    requires CutLines(rest + b) == CutLines(rest) + CutLines(b)
    ensures CutLines([line] + rest + b) == CutLines([line] + rest) + CutLines(b)
  {
    SentCons(line, rest, false);
    SentCons(line, rest + b, false);
    Smtp.LinesAssoc([line], rest, b);
    Smtp.LinesAssoc(Smtp.Texts(Smtp.SplitLine(line, false)), CutLines(rest), CutLines(b));
  }

  lemma CutShort(lines: seq<string>)
    requires Smtp.AreShort(lines)
    ensures CutLines(lines) == lines
  {
    Smtp.SentAsTheyAre(lines, false);
  }

  /** A header of short lines is sent as it is, and ends at the blank line. */
  lemma {:induction false} HeaderStays(header: seq<string>, rest: seq<string>, inHeaders: bool)
    requires NoBlanks(header) && Smtp.AreShort(header)
    ensures Smtp.Sent(Smtp.SplitLines(header + [""] + rest, inHeaders)) == header + [""] + CutLines(rest)
  {
    if header == [] {
      Smtp.LinesAssoc([], [""], rest);
      assert [] + [""] == [""];
      SentCons("", rest, inHeaders);
      Smtp.ShortLine("", false);
    } else {
      HeaderStays(header[1..], rest, inHeaders);
      FieldStays(header[0], header[1..], rest, inHeaders);
      assert header == [header[0]] + header[1..];
    }
  }

  lemma FieldStays(field: string, header: seq<string>, rest: seq<string>, inHeaders: bool)
    requires field != "" && |field| <= Smtp.MAX_LINE_LENGTH
    requires Smtp.Sent(Smtp.SplitLines(header + [""] + rest, inHeaders)) == header + [""] + CutLines(rest)
    ensures Smtp.Sent(Smtp.SplitLines([field] + header + [""] + rest, inHeaders)) ==
      [field] + header + [""] + CutLines(rest)
  {
    assert [field] + header + [""] + rest == [field] + (header + [""] + rest);
    SentCons(field, header + [""] + rest, inHeaders);
    Smtp.ShortLine(field, inHeaders);
  }

  /** What is sent for a printed entity is the cut entity, printed. */
  lemma {:induction false} CutIsSent(e: Entity, inHeaders: bool)
    requires HasShortFrame(e)
    ensures Smtp.Sent(Smtp.SplitLines(Lines(e), inHeaders)) == Lines(Cut(e))
    decreases e, 1
  {
    if e.Leaf? {
      HeaderStays(e.header, e.body, inHeaders);
    } else {
      HeaderStays(e.header, BodyLines(e), inHeaders);
      PartsAreCut(e.boundary, e.parts);
      CutFrame(e.preamble, PartLines(e.boundary, e.parts), "--" + e.boundary + "--", e.epilogue);
    }
  }

  lemma CutFrame(preamble: seq<string>, parts: seq<string>, closing: string, epilogue: seq<string>)
    requires Smtp.AreShort(preamble) && |closing| <= Smtp.MAX_LINE_LENGTH && Smtp.AreShort(epilogue)
    ensures CutLines(preamble + (parts + ([closing] + epilogue))) ==
      preamble + (CutLines(parts) + ([closing] + epilogue))
  {
    CutAppend(preamble, parts + ([closing] + epilogue));
    CutAppend(parts, [closing] + epilogue);
    CutShort(preamble);
    CutShort([closing] + epilogue);
  }

  lemma {:induction false} PartsAreCut(b: string, parts: seq<Entity>)
    requires HaveShortFrames(parts) && |b| + 4 <= Smtp.MAX_LINE_LENGTH
    ensures CutLines(PartLines(b, parts)) == PartLines(b, CutParts(parts))
    decreases parts, 0
  {
    if parts != [] {
      CutIsSent(parts[0], false);
      PartsAreCut(b, parts[1..]);
      CutAppend(["--" + b], Lines(parts[0]) + PartLines(b, parts[1..]));
      CutAppend(Lines(parts[0]), PartLines(b, parts[1..]));
      CutShort(["--" + b]);
      FirstPart(b, Cut(parts[0]), CutParts(parts[1..]));
    }
  }

  lemma FirstPart(b: string, part: Entity, rest: seq<Entity>)
    ensures PartLines(b, [part] + rest) == ["--" + b] + (Lines(part) + PartLines(b, rest))
  {
    assert ([part] + rest)[1..] == rest;
  }

  lemma {:induction false} SameFrame(le: LineEnding, e: Entity)
    ensures HasShortFrame(Normalised(le, e)) <==> HasShortFrame(e)
    decreases e, 1
  {
    if e.Multi? { SameFrames(le, e.parts); }
  }

  lemma {:induction false} SameFrames(le: LineEnding, parts: seq<Entity>)
    ensures HaveShortFrames(NormalisedParts(le, parts)) <==> HaveShortFrames(parts)
    decreases parts, 0
  {
    if parts != [] {
      SameFrame(le, parts[0]);
      SameFrames(le, parts[1..]);
      assert NormalisedParts(le, parts)[1..] == NormalisedParts(le, parts[1..]);
    }
  }

  // ---- from the message to the receiver -------------------------------------------

  /** The layout of the message as the server gets it: other line breaks in its
      bodies end a line, and long lines are cut. */
  function Arriving(m: Mail): Entity {
    Cut(Normalised(m.le, Received(m)))
  }

  /** What the server receives between DATA and the lone dot reads as the layout
      of the message: nesting, bodies and attachments arrive as they were
      composed, when no line that arrives looks like a delimiter. */
  lemma DeliveredIsLayout(s: Smtp.Conn, m: Mail, later: string)
    requires s.connected && "354" <= Smtp.NextReply(s)
    requires IsSound(m) && HasPlainFrame(m.le, Received(m)) && HasShortFrame(Received(m)) && IsPrintable(Arriving(m))
    ensures var sofar := s.wire + ("DATA" + CRLF); var wire := Smtp.Transmit(s, MessageText(m)).0.wire;
      |sofar| <= |wire| &&
      var received := Smtp.Receive(wire[|sofar|..] + later);
      received.Some? && received.value.rest == later && Read(received.value.lines) == Some(Arriving(m))
  {
    var text, e := MessageText(m), Received(m);
    TextOfMessage(m);
    ImplodeExplode(m.le, text);
    ReceivedHasBlankEnds(m);
    NormalOfEntity(m.le, e);
    SameFrame(m.le, e);
    CutIsSent(Normalised(m.le, e), Smtp.StartsWithHeader(Smtp.MessageLines(text)[0]));
    Smtp.TransmitIsReceived(s, text, later);
    ReadPrinted(Arriving(m));
  }

  // ---- short lines -------------------------------------------------------------------

  lemma ShortParts(a: seq<string>, b: seq<string>)
    ensures Smtp.AreShort(a + b) <==> Smtp.AreShort(a) && Smtp.AreShort(b)
  {
    assert forall i :: 0 <= i < |a| ==> (a + b)[i] == a[i];
    assert forall i :: 0 <= i < |b| ==> (a + b)[|a| + i] == b[i];
  }

  /** An entity of short lines is not cut. */
  lemma {:induction false} CutOfShort(e: Entity)
    requires IsPrintable(e) && Smtp.AreShort(Lines(e))
    ensures HasShortFrame(e) && Cut(e) == e
    decreases e, 1
  {
    if e.Leaf? {
      ShortParts(e.header + [""], e.body);
      ShortParts(e.header, [""]);
      CutShort(e.body);
    } else {
      var closing := ["--" + e.boundary + "--"];
      ShortParts(e.header + [""], BodyLines(e));
      ShortParts(e.header, [""]);
      ShortParts(e.preamble, PartLines(e.boundary, e.parts) + (closing + e.epilogue));
      ShortParts(PartLines(e.boundary, e.parts), closing + e.epilogue);
      ShortParts(closing, e.epilogue);
      assert |closing[0]| == |e.boundary| + 4;
      CutOfShortParts(e.boundary, e.parts);
    }
  }

  lemma {:induction false} CutOfShortParts(b: string, parts: seq<Entity>)
    requires ArePrintable(b, parts) && Smtp.AreShort(PartLines(b, parts))
    ensures HaveShortFrames(parts) && CutParts(parts) == parts
    decreases parts, 0
  {
    if parts != [] {
      ShortParts(["--" + b], Lines(parts[0]) + PartLines(b, parts[1..]));
      ShortParts(Lines(parts[0]), PartLines(b, parts[1..]));
      CutOfShort(parts[0]);
      CutOfShortParts(b, parts[1..]);
    }
  }

  /** With no line over the limit the receiver gets the normalised layout. */
  lemma ShortIsDelivered(s: Smtp.Conn, m: Mail, later: string)
    requires s.connected && "354" <= Smtp.NextReply(s)
    requires IsSound(m) && HasPlainFrame(m.le, Received(m))
    requires var e := Normalised(m.le, Received(m)); IsPrintable(e) && Smtp.AreShort(Lines(e))
    ensures var sofar := s.wire + ("DATA" + CRLF); var wire := Smtp.Transmit(s, MessageText(m)).0.wire;
      |sofar| <= |wire| &&
      var received := Smtp.Receive(wire[|sofar|..] + later);
      && received.Some? && received.value.rest == later
      && Read(received.value.lines) == Some(Normalised(m.le, Received(m)))
  {
    CutOfShort(Normalised(m.le, Received(m)));
    SameFrame(m.le, Received(m));
    DeliveredIsLayout(s, m, later);
  }

  /** With no other line breaks either, the receiver gets the layout itself. */
  lemma SendableIsDelivered(s: Smtp.Conn, m: Mail, later: string)
    requires s.connected && "354" <= Smtp.NextReply(s)
    requires IsSound(m) && Smtp.AreSendable(Explode(m.le, MessageText(m)))
    ensures var sofar := s.wire + ("DATA" + CRLF); var wire := Smtp.Transmit(s, MessageText(m)).0.wire;
      |sofar| <= |wire| &&
      var received := Smtp.Receive(wire[|sofar|..] + later);
      received.Some? && received.value.rest == later && Read(received.value.lines) == Some(Received(m))
  {
    SendableIsNormal(m);
    ShortIsDelivered(s, m, later);
  }

  lemma SendableIsNormal(m: Mail)
    requires IsSound(m) && Smtp.AreSendable(Explode(m.le, MessageText(m)))
    ensures HasPlainFrame(m.le, Received(m)) && Normalised(m.le, Received(m)) == Received(m)
    ensures IsPrintable(Received(m)) && Smtp.AreShort(Lines(Received(m)))
  {
    TextOfMessage(m);
    ReceivedHasBlankEnds(m);
    SendableIsPlain(Lines(Received(m)));
    NormalisedIsSame(m.le, Received(m));
  }

  lemma SendableIsPlain(lines: seq<string>)
    requires Smtp.AreSendable(lines)
    ensures AreBreakFree(lines) && Smtp.AreShort(lines)
  {
  }
}
