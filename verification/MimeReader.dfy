/** A reader of MIME entities written from section 5.1 of RFC 2046, on lines,
    and the proof that it reads back what is printed in the nested form. */
module MimeReader {
  import opened Strings
  import opened Wrappers

  /** An entity as a list of lines divides into. */
  datatype Entity =
    | Leaf(header: seq<string>, body: seq<string>)
    | Multi(header: seq<string>, boundary: string, preamble: seq<string>, parts: seq<Entity>, epilogue: seq<string>)

  /** "Sufficient that the boundary appear in its entirety" at the start. */
  predicate IsDelimiter(b: string, line: string) {
    "--" + b <= line
  }

  predicate IsClose(b: string, line: string) {
    "--" + b + "--" <= line
  }

  /** The first index from which the test holds, or the length. */
  function FirstBlank(lines: seq<string>): (n: nat)
    ensures n <= |lines|
  {
    if lines == [] || lines[0] == "" then 0 else 1 + FirstBlank(lines[1..])
  }

  function FirstDelimiter(b: string, lines: seq<string>): (n: nat)
    ensures n <= |lines|
    ensures n < |lines| ==> IsDelimiter(b, lines[n])
  {
    if lines == [] || IsDelimiter(b, lines[0]) then 0 else 1 + FirstDelimiter(b, lines[1..])
  }

  const BOUNDARY_PARAMETER: string := "\tboundary=\""

  /** The boundary a header announces: the parameter on the line after a
      multipart content type. */
  function BoundaryOf(header: seq<string>): Option<string> {
    if |header| < 2 then None
    else if "Content-Type: multipart/" <= header[0] && BOUNDARY_PARAMETER <= header[1] &&
      |header[1]| > |BOUNDARY_PARAMETER| then
      Some(header[1][|BOUNDARY_PARAMETER|..|header[1]| - 1])
    else BoundaryOf(header[1..])
  }

  /** Header, blank line, body; a multipart body is cut at its delimiters and
      each part read in turn. `None` for a multipart that is never closed. */
  function Read(lines: seq<string>): Option<Entity>
    decreases |lines|, 1
  {
    var n := FirstBlank(lines);
    if n == |lines| then None
    else
      var header, body := lines[..n], lines[n + 1..];
      match BoundaryOf(header)
      case None => Some(Leaf(header, body))
      case Some(b) =>
        var p := FirstDelimiter(b, body);
        if p == |body| then None
        else
          var parts := ReadParts(b, body[p..]);
          if parts.None? then None
          else Some(Multi(header, b, body[..p], parts.value.0, parts.value.1))
  }

  /** The parts from a delimiter line on, and the epilogue. */
  function ReadParts(b: string, lines: seq<string>): Option<(seq<Entity>, seq<string>)>
    requires lines != [] && IsDelimiter(b, lines[0])
    decreases |lines|, 0
  {
    if IsClose(b, lines[0]) then Some(([], lines[1..]))
    else
      var q := FirstDelimiter(b, lines[1..]);
      if q == |lines| - 1 then None
      else
        var part := Read(lines[1..][..q]);
        if part.None? then None
        else
          var more := ReadParts(b, lines[1..][q..]);
          if more.None? then None else Some(([part.value] + more.value.0, more.value.1))
  }

  // ---- the printed form ------------------------------------------------------

  function Lines(e: Entity): seq<string>
    decreases e, 2
  {
    match e
    case Leaf(header, body) => header + [""] + body
    case Multi(header, _, _, _, _) => header + [""] + BodyLines(e)
  }

  function BodyLines(e: Entity): seq<string>
    requires e.Multi?
    decreases e, 1
  {
    e.preamble + (PartLines(e.boundary, e.parts) + (["--" + e.boundary + "--"] + e.epilogue))
  }

  function PartLines(b: string, parts: seq<Entity>): seq<string>
    decreases parts, 0
  {
    if parts == [] then [] else ["--" + b] + (Lines(parts[0]) + PartLines(b, parts[1..]))
  }

  predicate NoBlanks(header: seq<string>) {
    forall i :: 0 <= i < |header| ==> header[i] != ""
  }

  predicate NoDelimiters(b: string, lines: seq<string>) {
    forall i :: 0 <= i < |lines| ==> !IsDelimiter(b, lines[i])
  }

  /** What the printed form must satisfy: headers without blank lines that
      announce the boundary used, and no delimiter inside a part. */
  predicate IsPrintable(e: Entity)
    decreases e, 1
  {
    NoBlanks(e.header) &&
    match e
    case Leaf(header, _) => BoundaryOf(header) == None
    case Multi(header, b, preamble, parts, _) =>
      BoundaryOf(header) == Some(b) && NoDelimiters(b, preamble) && ArePrintable(b, parts)
  }

  predicate ArePrintable(b: string, parts: seq<Entity>)
    decreases parts, 0
  {
    parts == [] || (IsPrintable(parts[0]) && NoDelimiters(b, Lines(parts[0])) && ArePrintable(b, parts[1..]))
  }

  lemma {:induction false} BlankAfter(header: seq<string>, rest: seq<string>)
    requires NoBlanks(header)
    ensures FirstBlank(header + [""] + rest) == |header|
  {
    var all := header + [""] + rest;
    if header != [] {
      assert all[0] == header[0] && all[1..] == header[1..] + [""] + rest;
      BlankAfter(header[1..], rest);
    }
  }

  lemma {:induction false} DelimiterAfter(b: string, a: seq<string>, rest: seq<string>)
    requires NoDelimiters(b, a) && rest != [] && IsDelimiter(b, rest[0])
    ensures FirstDelimiter(b, a + rest) == |a|
  {
    if a == [] {
      assert a + rest == rest;
    } else {
      assert (a + rest)[0] == a[0] && (a + rest)[1..] == a[1..] + rest;
      DelimiterAfter(b, a[1..], rest);
    }
  }

  /** A printed entity is read back as it was: the nesting, every part once and
      in order, preamble and epilogue. */
  lemma {:induction false} ReadPrinted(e: Entity)
    requires IsPrintable(e)
    ensures Read(Lines(e)) == Some(e)
    decreases e, 1
  {
    if e.Leaf? {
      HeaderEnds(e.header, e.body);
    } else {
      var tail := PartLines(e.boundary, e.parts) + (["--" + e.boundary + "--"] + e.epilogue);
      PartsReadPrinted(e.boundary, e.parts, e.epilogue);
      ReadMulti(e, tail);
    }
  }

  lemma ReadMulti(e: Entity, tail: seq<string>)
    requires e.Multi? && NoBlanks(e.header) && BoundaryOf(e.header) == Some(e.boundary) &&
      NoDelimiters(e.boundary, e.preamble)
    requires tail != [] && IsDelimiter(e.boundary, tail[0]) &&
      ReadParts(e.boundary, tail) == Some((e.parts, e.epilogue))
    ensures Read(e.header + [""] + (e.preamble + tail)) == Some(e)
  {
    HeaderEnds(e.header, e.preamble + tail);
    DelimiterAfter(e.boundary, e.preamble, tail);
    assert (e.preamble + tail)[..|e.preamble|] == e.preamble && (e.preamble + tail)[|e.preamble|..] == tail;
  }

  /** The header is what is before the first blank line. */
  lemma HeaderEnds(header: seq<string>, rest: seq<string>)
    requires NoBlanks(header)
    ensures var lines := header + [""] + rest; var n := FirstBlank(lines);
      n < |lines| && lines[..n] == header && lines[n + 1..] == rest
  {
    BlankAfter(header, rest);
  }

  lemma PartsStart(b: string, parts: seq<Entity>, epilogue: seq<string>)
    ensures var tail := PartLines(b, parts) + (["--" + b + "--"] + epilogue);
      tail != [] && IsDelimiter(b, tail[0]) && (parts == [] <==> tail[0] == "--" + b + "--") &&
        (parts != [] ==> tail[0] == "--" + b)
  {
    assert |"--" + b + "--"| == |"--" + b| + 2;
    var tail := PartLines(b, parts) + (["--" + b + "--"] + epilogue);
    if parts == [] {
      assert tail[0] == "--" + b + "--";
    } else {
      assert tail[0] == "--" + b;
    }
  }

  lemma {:induction false} PartsReadPrinted(b: string, parts: seq<Entity>, epilogue: seq<string>)
    requires ArePrintable(b, parts)
    ensures var tail := PartLines(b, parts) + (["--" + b + "--"] + epilogue);
      tail != [] && IsDelimiter(b, tail[0]) && ReadParts(b, tail) == Some((parts, epilogue))
    decreases parts, 0
  {
    var tail := PartLines(b, parts) + (["--" + b + "--"] + epilogue);
    PartsStart(b, parts, epilogue);
    if parts == [] {
      assert tail[1..] == epilogue;
    } else {
      var first, rest := Lines(parts[0]), PartLines(b, parts[1..]) + (["--" + b + "--"] + epilogue);
      assert tail == ["--" + b] + (first + rest);
      ReadPrinted(parts[0]);
      PartsReadPrinted(b, parts[1..], epilogue);
      ReadOnePart(b, parts[0], first, rest, parts[1..], epilogue);
      assert parts == [parts[0]] + parts[1..];
    }
  }

  /** A part between two delimiters, and the parts after it. */
  lemma ReadOnePart(b: string, part: Entity, first: seq<string>, rest: seq<string>, parts: seq<Entity>,
      epilogue: seq<string>)
    requires NoDelimiters(b, first) && Read(first) == Some(part)
    requires rest != [] && IsDelimiter(b, rest[0]) && ReadParts(b, rest) == Some((parts, epilogue))
    ensures var lines := ["--" + b] + (first + rest);
      IsDelimiter(b, lines[0]) && ReadParts(b, lines) == Some(([part] + parts, epilogue))
  {
    var lines := ["--" + b] + (first + rest);
    assert !IsClose(b, lines[0]);
    assert lines[1..] == first + rest;
    DelimiterAfter(b, first, rest);
    assert (first + rest)[..|first|] == first && (first + rest)[|first|..] == rest;
  }

  // ---- lines and text ----------------------------------------------------------

  /** The lines as text, each with its line ending. */
  function Unlines(le: string, lines: seq<string>): string {
    if lines == [] then "" else Unlines(le, lines[..|lines| - 1]) + (lines[|lines| - 1] + le)
  }

  /** The text holds no line ending. */
  predicate IsOneLine(le: string, s: string)
    requires le != ""
  {
    Explode(le, s) == [s]
  }

  predicate AreLines(le: string, lines: seq<string>)
    requires le != ""
  {
    forall i :: 0 <= i < |lines| ==> IsOneLine(le, lines[i])
  }

  lemma {:induction false} ExplodeLine(le: string, line: string, rest: string)
    requires IsLineEnding(le) && IsOneLine(le, line)
    ensures Explode(le, line + le + rest) == [line] + Explode(le, rest)
    decreases |line|
  {
    var s := line + le + rest;
    if line == "" {
      assert s == le + rest;
      assert le <= s && s[|le|..] == rest;
    } else {
      assert !(le <= line);
      var tail := Explode(le, line[1..]);
      assert Explode(le, line) == [[line[0]] + tail[0]] + tail[1..];
      assert Explode(le, line)[0] == [line[0]] + tail[0] && |Explode(le, line)| == |tail|;
      assert ([line[0]] + tail[0])[1..] == tail[0];
      assert !(le <= s) by {
        if |line| >= |le| { assert s[..|le|] == line[..|le|]; } else { assert s[1] == le[0]; }
      }
      assert s[0] == line[0] && s[1..] == line[1..] + le + rest;
      ExplodeLine(le, line[1..], rest);
      assert [line[0]] + line[1..] == line;
    }
  }

  lemma {:induction false} ExplodedAreLines(le: string, s: string)
    requires le != ""
    ensures AreLines(le, Explode(le, s))
    decreases |s|
  {
    if s == "" {
      assert Explode(le, "") == [""];
    } else if le <= s {
      ExplodedAreLines(le, s[|le|..]);
      assert Explode(le, "") == [""];
    } else {
      var rest := Explode(le, s[1..]);
      ExplodedAreLines(le, s[1..]);
      var first := [s[0]] + rest[0];
      FirstPartPrefix(le, s[1..]);
      assert first[1..] == rest[0];
      assert first <= s;
      assert IsOneLine(le, first);
      var all := Explode(le, s);
      assert all == [first] + rest[1..];
    }
  }

  lemma {:induction false} FirstPartPrefix(le: string, s: string)
    requires le != ""
    ensures Explode(le, s)[0] <= s
    decreases |s|
  {
    if s != "" && !(le <= s) { FirstPartPrefix(le, s[1..]); }
  }

  /** Splitting the text of some lines gives the lines, then the rest. */
  lemma {:induction false} ExplodeUnlines(le: string, lines: seq<string>, rest: string)
    requires IsLineEnding(le) && AreLines(le, lines)
    ensures Explode(le, Unlines(le, lines) + rest) == lines + Explode(le, rest)
    decreases |lines|
  {
    if lines == [] {
      assert "" + rest == rest;
    } else {
      var n := |lines| - 1;
      ExplodeLine(le, lines[n], rest);
      ExplodeUnlines(le, lines[..n], lines[n] + le + rest);
      Assoc(Unlines(le, lines[..n]), lines[n] + le, rest);
      LastThenRest(lines, Explode(le, rest));
    }
  }

  lemma LastThenRest(lines: seq<string>, rest: seq<string>)
    requires lines != []
    ensures lines[..|lines| - 1] + ([lines[|lines| - 1]] + rest) == lines + rest
  {
  }

  lemma {:induction false} UnlinesAppend(le: string, a: seq<string>, b: seq<string>)
    ensures Unlines(le, a + b) == Unlines(le, a) + Unlines(le, b)
    decreases |b|
  {
    if b == [] {
      assert a + b == a;
    } else {
      var n := |b| - 1;
      assert (a + b)[..|a + b| - 1] == a + b[..n];
      UnlinesAppend(le, a, b[..n]);
    }
  }

  lemma {:induction false} UnlinesOfImplode(le: string, lines: seq<string>)
    requires lines != []
    ensures Unlines(le, lines) == Implode(le, lines) + le
  {
    if |lines| > 1 {
      UnlinesOfImplode(le, lines[..|lines| - 1]);
    } else {
      assert lines[..0] == [];
    }
  }

  /** Any text is the text of its lines, up to the last line ending. */
  lemma UnlinesExplode(le: string, s: string)
    requires le != ""
    ensures Unlines(le, Explode(le, s)) == s + le
  {
    ImplodeExplode(le, s);
    UnlinesOfImplode(le, Explode(le, s));
  }
}
