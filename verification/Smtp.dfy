/** The SMTP client's DATA phase (`SMTP::data`): long lines are split, header
    continuations marked, leading dots doubled. The receiver is written from
    section 4.5.2 of RFC 5321. */
module Smtp {
  import opened Wrappers
  import opened Strings
  import opened QEncoding

  const MAX_LINE_LENGTH: nat := 998

  // ---- splitting one line ------------------------------------------------

  /** Why a piece ends: at a space (which is dropped), inside a run without
      spaces, or because the line ends. */
  datatype Glue = Soft | Hard | Last
  datatype Piece = Piece(text: string, glue: Glue)

  /** `strrpos(s, ' ')`, with 0 also for "not found" as in `!$pos`. */
  function LastSpace(s: string): (pos: nat)
    ensures s == "" ==> pos == 0
    ensures s != "" ==> pos < |s|
    ensures pos > 0 ==> s[pos] == ' '
    ensures forall i :: pos < i < |s| ==> s[i] != ' '
  {
    if s == "" || s[|s| - 1] == ' ' then (if s == "" then 0 else |s| - 1) else LastSpace(s[..|s| - 1])
  }

  function Tabbed(inHeaders: bool, s: string): string {
    if inHeaders then "\t" + s else s
  }

  function SplitLine(line: string, inHeaders: bool): (pieces: seq<Piece>)
    ensures pieces != []
    decreases |line|
  {
    if |line| <= MAX_LINE_LENGTH then [Piece(line, Last)]
    else
      var pos := LastSpace(line[..MAX_LINE_LENGTH]);
      if pos == 0 then
        [Piece(line[..MAX_LINE_LENGTH - 1], Hard)] +
          SplitLine(Tabbed(inHeaders, line[MAX_LINE_LENGTH - 1..]), inHeaders)
      else
        [Piece(line[..pos], Soft)] + SplitLine(Tabbed(inHeaders, line[pos + 1..]), inHeaders)
  }

  function Texts(pieces: seq<Piece>): (r: seq<string>)
    ensures |r| == |pieces|
  {
    if pieces == [] then [] else [pieces[0].text] + Texts(pieces[1..])
  }

  /** Undoing the split: the added tab goes, the dropped space comes back. */
  function Rejoin(pieces: seq<Piece>, inHeaders: bool): string {
    if pieces == [] then ""
    else if pieces[0].glue.Last? then pieces[0].text
    else
      var rest := Rejoin(pieces[1..], inHeaders);
      pieces[0].text + (if pieces[0].glue.Soft? then " " else "") +
        (if inHeaders && rest != "" then rest[1..] else rest)
  }

  /** What is left of a long line after its first piece. */
  function Remainder(line: string, inHeaders: bool): (rest: string)
    requires |line| > MAX_LINE_LENGTH
    ensures |rest| < |line|
  {
    var pos := LastSpace(line[..MAX_LINE_LENGTH]);
    Tabbed(inHeaders, if pos == 0 then line[MAX_LINE_LENGTH - 1..] else line[pos + 1..])
  }

  lemma FirstCut(line: string, inHeaders: bool)
    requires |line| > MAX_LINE_LENGTH
    ensures var first := SplitLine(line, inHeaders)[0]; var next := Remainder(line, inHeaders);
      && SplitLine(line, inHeaders) == [first] + SplitLine(next, inHeaders) && !first.glue.Last?
      && (inHeaders ==> next != "")
      && line == first.text + (if first.glue.Soft? then " " else "") + (if inHeaders then next[1..] else next)
  {
    var pos := LastSpace(line[..MAX_LINE_LENGTH]);
    var next := Remainder(line, inHeaders);
    var tail := if inHeaders then next[1..] else next;
    if pos > 0 {
      assert line == line[..pos] + " " + line[pos + 1..];
    } else {
      assert line == line[..MAX_LINE_LENGTH - 1] + "" + line[MAX_LINE_LENGTH - 1..];
    }
  }

  /** Putting the pieces of any line together gives the line. */
  lemma {:induction false} SplitIsLossless(line: string, inHeaders: bool)
    ensures Rejoin(SplitLine(line, inHeaders), inHeaders) == line
    decreases |line|
  {
    if |line| > MAX_LINE_LENGTH {
      var next := Remainder(line, inHeaders);
      FirstCut(line, inHeaders);
      SplitIsLossless(next, inHeaders);
      RejoinCons(SplitLine(line, inHeaders)[0], SplitLine(next, inHeaders), inHeaders);
    }
  }

  lemma RejoinCons(first: Piece, rest: seq<Piece>, inHeaders: bool)
    requires !first.glue.Last?
    ensures Rejoin([first] + rest, inHeaders) ==
      first.text + (if first.glue.Soft? then " " else "") +
      (if inHeaders && Rejoin(rest, inHeaders) != "" then Rejoin(rest, inHeaders)[1..] else Rejoin(rest, inHeaders))
  {
    assert ([first] + rest)[1..] == rest;
  }

  /** The pieces fit the limit and bring in no line break characters. */
  lemma {:induction false} PiecesFit(line: string, inHeaders: bool)
    requires BreakFree(line)
    ensures AreSendable(Texts(SplitLine(line, inHeaders)))
    ensures forall i :: 0 <= i < |Texts(SplitLine(line, inHeaders))| ==> |Texts(SplitLine(line, inHeaders))[i]| <= 998
    decreases |line|
  {
    if |line| > MAX_LINE_LENGTH {
      var first, next := SplitLine(line, inHeaders)[0], Remainder(line, inHeaders);
      FirstCut(line, inHeaders);
      CutIsBreakFree(line, inHeaders);
      PiecesFit(next, inHeaders);
      TextsCons(first, SplitLine(next, inHeaders));
      SendableCons(first.text, Texts(SplitLine(next, inHeaders)));
    } else {
      ShortLine(line, inHeaders);
    }
  }

  lemma CutIsBreakFree(line: string, inHeaders: bool)
    requires BreakFree(line) && |line| > MAX_LINE_LENGTH
    ensures BreakFree(Remainder(line, inHeaders))
    ensures var first := SplitLine(line, inHeaders)[0].text; BreakFree(first) && |first| <= MAX_LINE_LENGTH
  {
  }

  lemma TextsCons(first: Piece, rest: seq<Piece>)
    ensures Texts([first] + rest) == [first.text] + Texts(rest)
  {
    assert ([first] + rest)[1..] == rest;
  }

  lemma SendableCons(line: string, rest: seq<string>)
    requires BreakFree(line) && |line| <= MAX_LINE_LENGTH && AreSendable(rest)
    ensures AreSendable([line] + rest)
  {
  }

  /** A break is at the last space that keeps the piece within the limit; only
      where there is none is a word cut. */
  lemma BreakIsBest(line: string, inHeaders: bool)
    requires |line| > MAX_LINE_LENGTH
    ensures var first := SplitLine(line, inHeaders)[0]; var n := |first.text|;
      && first.text == line[..n] && !first.glue.Last?
      && (first.glue.Soft? ==> 0 < n && line[n] == ' ' && forall i :: n < i < 998 ==> line[i] != ' ')
      && (first.glue.Hard? ==> n == 997 && forall i :: 0 < i < 998 ==> line[i] != ' ')
  {
    assert forall i :: 0 <= i < MAX_LINE_LENGTH ==> line[..MAX_LINE_LENGTH][i] == line[i];
  }

  // ---- folded headers ------------------------------------------------------

  function CountHard(pieces: seq<Piece>): nat {
    if pieces == [] then 0 else (if pieces[0].glue.Hard? then 1 else 0) + CountHard(pieces[1..])
  }

  /** The same text, but for tabs in place of spaces. */
  predicate SameButBlanks(a: string, b: string) {
    |a| == |b| && forall i :: 0 <= i < |a| ==> a[i] == b[i] || (a[i] in " \t" && b[i] in " \t")
  }

  /** Unfolding a split header (RFC 822 section 3.1.1: the break goes, the blank
      after it stays) is longer than the header by one tab for each cut word. */
  lemma {:induction false} UnfoldedLength(line: string)
    ensures |Concat(Texts(SplitLine(line, true)))| == |line| + CountHard(SplitLine(line, true))
    decreases |line|
  {
    var all := SplitLine(line, true);
    if |line| > MAX_LINE_LENGTH {
      var next := Remainder(line, true);
      UnfoldedLength(next);
      assert all[1..] == SplitLine(next, true);
      assert Texts(all)[1..] == Texts(all[1..]);
    } else {
      assert Texts(all) == [line] && [line][1..] == [] && all[1..] == [];
    }
  }

  lemma {:induction false} UnfoldedText(line: string)
    requires CountHard(SplitLine(line, true)) == 0
    ensures SameButBlanks(Concat(Texts(SplitLine(line, true))), line)
    decreases |line|
  {
    var all := SplitLine(line, true);
    if |line| > MAX_LINE_LENGTH {
      var pos := LastSpace(line[..MAX_LINE_LENGTH]);
      assert pos > 0;
      var next := "\t" + line[pos + 1..];
      assert all[1..] == SplitLine(next, true);
      UnfoldedText(next);
      var c, d := Concat(Texts(all)), Concat(Texts(all[1..]));
      assert Texts(all)[1..] == Texts(all[1..]) && c == line[..pos] + d;
      forall i | 0 <= i < |line| ensures c[i] == line[i] || (c[i] in " \t" && line[i] in " \t") {
        if i >= pos {
          assert c[i] == d[i - pos];
          assert i > pos ==> next[i - pos] == line[i];
        }
      }
    } else {
      assert Texts(all) == [line] && [line][1..] == [];
      assert Concat([line]) == line + "";
    }
  }

  /** There is a space among the 997 characters from `p` on. */
  predicate HasSpace(s: string, p: nat) {
    exists i :: p <= i < |s| && i < p + MAX_LINE_LENGTH - 1 && s[i] == ' '
  }

  /** Every stretch of 997 characters that is followed by another has a space. */
  predicate CanBreak(s: string, from: nat) {
    forall p: nat :: from <= p && p + MAX_LINE_LENGTH <= |s| ==> HasSpace(s, p)
  }

  /** Dropping a front part that ends with its last space changes nothing. */
  lemma BreakMovesOn(t: string, k: nat)
    requires 0 < k < MAX_LINE_LENGTH && k <= |t| && t[k - 1] == ' '
    ensures CanBreak(t, 0) <==> CanBreak(t[k..], 0)
  {
    var rest := t[k..];
    forall p: nat | p < k ensures HasSpace(t, p) { assert t[k - 1] == ' '; }
    if CanBreak(t, 0) {
      forall p: nat | p + MAX_LINE_LENGTH <= |rest| ensures HasSpace(rest, p) {
        assert HasSpace(t, p + k);
        var i :| p + k <= i < p + k + MAX_LINE_LENGTH - 1 && t[i] == ' ';
        assert rest[i - k] == ' ';
      }
    }
    if CanBreak(rest, 0) {
      forall p: nat | k <= p && p + MAX_LINE_LENGTH <= |t| ensures HasSpace(t, p) {
        assert HasSpace(rest, p - k);
        var i :| p - k <= i < p - k + MAX_LINE_LENGTH - 1 && rest[i] == ' ';
        assert t[i + k] == ' ';
      }
    }
  }

  /** No word of a header is cut exactly when there is a space to break at
      everywhere; a space at the very start does not help. */
  lemma {:induction false} NoHardBreak(c: char, t: string)
    ensures CountHard(SplitLine([c] + t, true)) == 0 <==> CanBreak(t, 0)
    decreases |t|
  {
    var line := [c] + t;
    var all := SplitLine(line, true);
    if |line| > MAX_LINE_LENGTH {
      var pos := LastSpace(line[..MAX_LINE_LENGTH]);
      var next := Remainder(line, true);
      FirstCut(line, true);
      assert all[1..] == SplitLine(next, true);
      if pos == 0 {
        NoSpaceAhead(line, t);
      } else {
        assert line[pos] == ' ' && t[pos - 1] == ' ';
        assert line[pos + 1..] == t[pos..];
        BreakMovesOn(t, pos);
        NoHardBreak('\t', t[pos..]);
      }
    } else {
      assert all[1..] == [];
    }
  }

  lemma NoSpaceAhead(line: string, t: string)
    requires |line| > MAX_LINE_LENGTH && line[1..] == t && LastSpace(line[..MAX_LINE_LENGTH]) == 0
    ensures !CanBreak(t, 0)
  {
    assert forall i :: 0 <= i < MAX_LINE_LENGTH - 1 ==> t[i] == line[..MAX_LINE_LENGTH][i + 1];
    assert !HasSpace(t, 0);
  }

  lemma BreakAfterFirst(line: string)
    requires line != ""
    ensures CanBreak(line, 1) <==> CanBreak(line[1..], 0)
  {
    var t := line[1..];
    if CanBreak(line, 1) {
      forall p: nat | p + MAX_LINE_LENGTH <= |t| ensures HasSpace(t, p) {
        assert HasSpace(line, p + 1);
        var i :| p + 1 <= i < p + MAX_LINE_LENGTH && line[i] == ' ';
        assert t[i - 1] == ' ';
      }
    }
    if CanBreak(t, 0) {
      forall p: nat | 1 <= p && p + MAX_LINE_LENGTH <= |line| ensures HasSpace(line, p) {
        assert HasSpace(t, p - 1);
        var i :| p - 1 <= i < p - 1 + MAX_LINE_LENGTH - 1 && t[i] == ' ';
        assert line[i + 1] == ' ';
      }
    }
  }

  /** A receiver that unfolds the header sees the header that was sent, up to
      the kind of blank, exactly when every stretch of 997 characters after the
      first has a space in it, where more than that is to come. */
  lemma HeaderUnfolds(line: string)
    ensures SameButBlanks(Concat(Texts(SplitLine(line, true))), line) <==> CanBreak(line, 1)
  {
    UnfoldedLength(line);
    if line == "" {
      assert Texts([Piece(line, Last)]) == [line] && [line][1..] == [];
    } else {
      assert line == [line[0]] + line[1..];
      NoHardBreak(line[0], line[1..]);
      BreakAfterFirst(line);
      if CountHard(SplitLine(line, true)) == 0 { UnfoldedText(line); }
    }
  }

  /** A field with a word that is too long unfolds to another text. */
  lemma SomeHeaderIsCut() returns (line: string)
    ensures StartsWithHeader(line) && "X-Note: " <= line
    ensures !CanBreak(line, 1) && !SameButBlanks(Concat(Texts(SplitLine(line, true))), line)
  {
    line := LongNote();
    assert !HasSpace(line, 8);
    HeaderUnfolds(line);
  }

  lemma LongNote() returns (line: string)
    ensures |line| == MAX_LINE_LENGTH + 8 && StartsWithHeader(line) && "X-Note: " <= line
    ensures forall i :: 8 <= i < |line| ==> line[i] != ' '
  {
    var name, word := "X-Note", seq(MAX_LINE_LENGTH, _ => 'a');
    line := name + (": " + word);
    FirstColon(name, ": " + word);
    assert line[..8] == "X-Note: " && line[..6] == name && ' ' !in name;
    assert forall i :: 8 <= i < |line| ==> line[i] == word[i - 8];
  }

  lemma {:induction false} FirstColon(name: string, rest: string)
    requires ':' !in name && rest != "" && rest[0] == ':'
    ensures IndexOf(':', name + rest) == |name|
  {
    if name == "" {
      assert name + rest == rest;
    } else {
      assert (name + rest)[0] == name[0] && (name + rest)[1..] == name[1..] + rest;
      FirstColon(name[1..], rest);
    }
  }

  // ---- the whole message -----------------------------------------------------

  /** Whether the first line looks like a header: a field name without spaces
      before the first colon. (The name "0" counts as empty in PHP.) */
  predicate StartsWithHeader(line: string) {
    var k := IndexOf(':', line);
    k < |line| && k > 0 && line[..k] != "0" && ' ' !in line[..k]
  }

  /** A message starts with headers when its first line has a colon, with a name
      before it that has no space and is not "0". */
  lemma WhatStartsHeaders(line: string)
    ensures StartsWithHeader(line) <==>
      exists k ::
        && 0 < k < |line| && line[k] == ':' && (forall i :: 0 <= i < k ==> line[i] != ':' && line[i] != ' ')
        && (k == 1 ==> line[0] != '0')
  {
    var k := IndexOf(':', line);
    if k < |line| {
      assert line[..k] == "0" <==> k == 1 && line[0] == '0';
      assert forall i :: 0 <= i < k ==> line[..k][i] == line[i];
    }
    if StartsWithHeader(line) {
      assert forall i :: 0 <= i < k ==> line[i] != ':' && line[i] != ' ';
    }
    forall j | 0 < j < |line| && line[j] == ':' && forall i :: 0 <= i < j ==> line[i] != ':' && line[i] != ' '
      ensures j == k
    {
    }
  }

  function SplitLines(lines: seq<string>, inHeaders: bool): seq<seq<Piece>> {
    if lines == [] then []
    else
      var h := inHeaders && lines[0] != "";
      [SplitLine(lines[0], h)] + SplitLines(lines[1..], h)
  }

  function MessageLines(msg: string): (lines: seq<string>)
    ensures lines != []
  {
    Explode("\n", Unix(msg))
  }

  function SplitMessage(msg: string): seq<seq<Piece>> {
    SplitLines(MessageLines(msg), StartsWithHeader(MessageLines(msg)[0]))
  }

  /** The lines that are sent, before dots are doubled. */
  function Sent(groups: seq<seq<Piece>>): seq<string> {
    if groups == [] then [] else Texts(groups[0]) + Sent(groups[1..])
  }

  /** The lines up to the first blank one are headers, when the first is. */
  predicate IsHeaderLine(lines: seq<string>, i: nat, inHeaders: bool)
    requires i < |lines|
  {
    inHeaders && forall k :: 0 <= k <= i ==> lines[k] != ""
  }

  /** Each line of the message can be put together again from what is sent. */
  lemma {:induction false} LinesAreLossless(lines: seq<string>, inHeaders: bool, i: nat)
    requires i < |lines|
    ensures |SplitLines(lines, inHeaders)| == |lines|
    ensures Rejoin(SplitLines(lines, inHeaders)[i], IsHeaderLine(lines, i, inHeaders)) == lines[i]
  {
    var h := inHeaders && lines[0] != "";
    SplitIsLossless(lines[0], h);
    if i > 0 {
      LinesAreLossless(lines[1..], h, i - 1);
      assert IsHeaderLine(lines[1..], i - 1, h) == IsHeaderLine(lines, i, inHeaders) by {
        assert forall k :: 0 < k <= i ==> lines[k] == lines[1..][k - 1];
      }
    } else {
      assert IsHeaderLine(lines, 0, inHeaders) == h;
      if |lines| > 1 { LinesAreLossless(lines[1..], h, 0); }
    }
  }

  lemma NextGroup(lines: seq<string>, i: nat, inHeaders: bool, all: seq<string>, done: seq<string>)
    requires i < |lines| && all == done + Sent(SplitLines(lines[i..], inHeaders))
    ensures var h := inHeaders && lines[i] != "";
      all == (done + Texts(SplitLine(lines[i], h))) + Sent(SplitLines(lines[i + 1..], h))
  {
    var h := inHeaders && lines[i] != "";
    assert lines[i..][1..] == lines[i + 1..];
    assert SplitLines(lines[i..], inHeaders)[1..] == SplitLines(lines[i + 1..], h);
  }

  predicate AreSendable(lines: seq<string>) {
    forall i :: 0 <= i < |lines| ==> BreakFree(lines[i]) && |lines[i]| <= MAX_LINE_LENGTH
  }

  lemma {:induction false} SentIsSendable(lines: seq<string>, inHeaders: bool)
    requires forall i :: 0 <= i < |lines| ==> BreakFree(lines[i])
    ensures AreSendable(Sent(SplitLines(lines, inHeaders)))
  {
    if lines != [] {
      var h := inHeaders && lines[0] != "";
      PiecesFit(lines[0], h);
      SentIsSendable(lines[1..], h);
      assert SplitLines(lines, inHeaders)[1..] == SplitLines(lines[1..], h);
    }
  }

  predicate AreShort(lines: seq<string>) {
    forall i :: 0 <= i < |lines| ==> |lines[i]| <= MAX_LINE_LENGTH
  }

  lemma ShortLine(line: string, inHeaders: bool)
    requires |line| <= MAX_LINE_LENGTH
    ensures Texts(SplitLine(line, inHeaders)) == [line]
  {
    assert [Piece(line, Last)][1..] == [] && Texts([]) == [];
  }

  lemma LongLine(line: string, inHeaders: bool)
    requires |line| > MAX_LINE_LENGTH
    ensures |Texts(SplitLine(line, inHeaders))| > 1
  {
    FirstCut(line, inHeaders);
  }

  lemma {:induction false} MoreLinesSent(lines: seq<string>, inHeaders: bool)
    ensures |Sent(SplitLines(lines, inHeaders))| >= |lines|
    ensures AreShort(lines) ==> Sent(SplitLines(lines, inHeaders)) == lines
    ensures !AreShort(lines) ==> |Sent(SplitLines(lines, inHeaders))| > |lines|
  {
    if lines != [] {
      var h := inHeaders && lines[0] != "";
      MoreLinesSent(lines[1..], h);
      assert SplitLines(lines, inHeaders)[1..] == SplitLines(lines[1..], h);
      assert lines == [lines[0]] + lines[1..];
      if |lines[0]| <= MAX_LINE_LENGTH { ShortLine(lines[0], h); } else { LongLine(lines[0], h); }
    }
  }

  /** The receiver gets the lines of the message exactly when none is longer
      than the limit; the bytes do not tell a split line from two. */
  lemma SentAsTheyAre(lines: seq<string>, inHeaders: bool)
    ensures Sent(SplitLines(lines, inHeaders)) == lines <==> forall i :: 0 <= i < |lines| ==> |lines[i]| <= 998
  {
    MoreLinesSent(lines, inHeaders);
  }

  // ---- framing -------------------------------------------------------------

  function Stuffed(line: string): string {
    if line != "" && line[0] == '.' then "." + line else line
  }

  /** The bytes of a list of lines on the wire. */
  function Framed(lines: seq<string>): string {
    if lines == [] then "" else Stuffed(lines[0]) + CRLF + Framed(lines[1..])
  }

  lemma {:induction false} FramedAppend(a: seq<string>, b: seq<string>)
    ensures Framed(a + b) == Framed(a) + Framed(b)
  {
    if a == [] {
      assert a + b == b;
    } else {
      assert (a + b)[1..] == a[1..] + b;
      FramedAppend(a[1..], b);
    }
  }

  lemma FramedSnoc(lines: seq<string>, line: string)
    ensures Framed(lines + [line]) == Framed(lines) + (Stuffed(line) + CRLF)
  {
    FramedAppend(lines, [line]);
    assert [line][1..] == [] && Framed([]) == "";
  }

  datatype Received = Received(lines: seq<string>, rest: string)

  /** The length of the line at the start of the stream; without a CRLF, the
      length of the stream. */
  function LineLength(s: string): (n: nat)
    ensures n <= |s|
  {
    if s == "" || CRLF <= s then 0 else 1 + LineLength(s[1..])
  }

  /** The receiver: a line that is a lone dot ends the message; any other line
      loses its first dot. `None` while the message is not ended. */
  function Receive(s: string): Option<Received>
    decreases |s|
  {
    var n := LineLength(s);
    if n + 2 > |s| then None
    else
      var line, rest := s[..n], s[n + 2..];
      if line == "." then Some(Received([], rest))
      else
        var more := Receive(rest);
        if more.None? then None
        else Some(Received([if line != "" && line[0] == '.' then line[1..] else line] + more.value.lines,
          more.value.rest))
  }

  lemma {:induction false} LineEndsAtCRLF(line: string, rest: string)
    requires BreakFree(line)
    ensures LineLength(line + CRLF + rest) == |line|
  {
    var s := line + CRLF + rest;
    if line == "" {
      assert s == CRLF + rest;
    } else {
      assert s[0] == line[0] && s[1..] == line[1..] + CRLF + rest;
      LineEndsAtCRLF(line[1..], rest);
    }
  }

  lemma ReceiveLine(line: string, rest: string)
    requires BreakFree(line)
    ensures var s := Stuffed(line) + CRLF + rest; var more := Receive(rest);
      Receive(s) == if more.None? then None else Some(Received([line] + more.value.lines, more.value.rest))
  {
    var stuffed := Stuffed(line);
    var s := stuffed + CRLF + rest;
    LineEndsAtCRLF(stuffed, rest);
    assert s[..|stuffed|] == stuffed && s[|stuffed| + 2..] == rest;
    assert stuffed != "." && (line != "" && line[0] == '.' ==> stuffed[1..] == line);
  }

  /** The receiver recovers the lines and meets the lone dot only where the
      sender put it, whatever follows. */
  lemma {:induction false} FramingIsTransparent(lines: seq<string>, after: string)
    requires forall i :: 0 <= i < |lines| ==> BreakFree(lines[i])
    ensures Receive(Framed(lines) + ("." + CRLF + after)) == Some(Received(lines, after))
  {
    if lines == [] {
      ReceiveDot(after);
    } else {
      FramingIsTransparent(lines[1..], after);
      FramedThen(lines, "." + CRLF + after);
      ReceiveLine(lines[0], Framed(lines[1..]) + ("." + CRLF + after));
      assert lines == [lines[0]] + lines[1..];
    }
  }

  lemma ReceiveDot(after: string)
    ensures Receive("" + ("." + CRLF + after)) == Some(Received([], after))
  {
    var s := "." + CRLF + after;
    assert "" + s == s;
    LineEndsAtCRLF(".", after);
    assert s[..1] == "." && s[3..] == after;
  }

  lemma FramedThen(lines: seq<string>, end: string)
    requires lines != []
    ensures Framed(lines) + end == Stuffed(lines[0]) + CRLF + (Framed(lines[1..]) + end)
  {
  }

  /** For any message bytes: what follows DATA on the wire is read as exactly
      the split lines, each within the limit, and ends at the DATA END command. */
  lemma DataIsTransparent(msg: string, after: string)
    ensures Receive(Framed(Sent(SplitMessage(msg))) + ("." + CRLF + after)) ==
      Some(Received(Sent(SplitMessage(msg)), after))
    ensures AreSendable(Sent(SplitMessage(msg)))
  {
    UnixHasNoCR(msg);
    UnixLinesBreakFree(Unix(msg));
    assert forall i :: 0 <= i < |MessageLines(msg)| ==> MessageLines(msg)[i] in MessageLines(msg);
    SentIsSendable(MessageLines(msg), StartsWithHeader(MessageLines(msg)[0]));
    FramingIsTransparent(Sent(SplitMessage(msg)), after);
  }

  // ---- the client --------------------------------------------------------------

  /** The reply code: the first three characters of the reply. */
  function Code(reply: string): string {
    if |reply| <= 3 then reply else reply[..3]
  }

  predicate AreReplyCodes(codes: set<string>) {
    forall c :: c in codes ==> |c| == 3
  }

  /** A code of three characters is the code of the replies that start with it. */
  lemma CodeStarts(reply: string, codes: set<string>)
    requires AreReplyCodes(codes)
    ensures Code(reply) in codes <==> exists c :: c in codes && c <= reply
  {
    if Code(reply) in codes { assert Code(reply) <= reply; }
    forall c | c in codes && c <= reply ensures Code(reply) == c { assert reply[..3] == c; }
  }

  /** What a command depends on and changes: the connection, every byte sent so
      far, and the answers the server is going to give (a silent server answers
      with the empty string). */
  datatype Conn = Conn(connected: bool, wire: string, replies: seq<string>)

  function NextReply(s: Conn): string {
    if s.replies == [] then "" else s.replies[0]
  }

  /** A command: nothing is sent without a connection or with a line break in
      the command, and only the codes in `codes` mean success. */
  function Issue(s: Conn, commandString: string, codes: set<string>): (Conn, bool) {
    if !s.connected || !BreakFree(commandString) then (s, false)
    else
      (s.(wire := s.wire + (commandString + CRLF), replies := if s.replies == [] then [] else s.replies[1..]),
       Code(NextReply(s)) in codes)
  }

  /** The DATA phase: the command, the lines, the lone dot. */
  function Transmit(s: Conn, msg: string): (Conn, bool) {
    var (s1, begun) := Issue(s, "DATA", {"354"});
    if !begun then (s1, false)
    else Issue(s1.(wire := s1.wire + Framed(Sent(SplitMessage(msg)))), ".", {"250"})
  }

  function MailCommand(from: string, verp: bool): string {
    "MAIL FROM:<" + from + ">" + (if verp then " XVERP" else "")
  }

  function RcptCommand(address: string): string {
    "RCPT TO:<" + address + ">"
  }

  class SMTP {
    var connected: bool
    var wire: string
    var replies: seq<string>
    var lastReply: string
    var error: string           // empty when the last command went well
    var timelimit: nat
    var doVerp: bool

    function State(): Conn
      reads this
    {
      Conn(connected, wire, replies)
    }

    method ClientSend(data: string)
      modifies this`wire
      ensures wire == old(wire) + data
    {
      wire := wire + data;
    }

    method GetLines() returns (reply: string)
      modifies this`replies
      ensures reply == old(NextReply(State())) && replies == old(if replies == [] then [] else replies[1..])
    {
      reply := NextReply(State());
      replies := if replies == [] then [] else replies[1..];
    }

    /** `sendCommand` */
    method SendCommand(command: string, commandString: string, codes: set<string>) returns (ok: bool)
      modifies this`wire, this`replies, this`lastReply, this`error
      ensures (State(), ok) == Issue(old(State()), commandString, codes)
      ensures old(!connected || !BreakFree(commandString)) ==> !ok && State() == old(State())
      ensures old(connected && BreakFree(commandString)) ==>
        && wire == old(wire) + (commandString + CRLF) && connected
        && replies == old(if replies == [] then [] else replies[1..])
        && (AreReplyCodes(codes) ==> (ok <==> exists c :: c in codes && c <= old(NextReply(State()))))
      ensures lastReply == old(if connected && BreakFree(commandString) then NextReply(State()) else lastReply)
      ensures error == "" <==> ok
    {
      if !connected {
        error := "Called " + command + " without being connected";
        assert error[0] == 'C';
        return false;
      }
      if !BreakFree(commandString) {
        error := "Command '" + command + "' contained line breaks";
        assert error[0] == 'C';
        return false;
      }
      ClientSend(commandString + CRLF);
      lastReply := GetLines();
      if AreReplyCodes(codes) { CodeStarts(lastReply, codes); }
      var code := Code(lastReply);
      if code !in codes {
        error := command + " command failed";
        assert error[|error| - 1] == 'd';
        return false;
      }
      error := "";
      return true;
    }

    /** `data` */
    method Data(msg: string) returns (ok: bool)
      modifies this
      ensures (State(), ok) == Transmit(old(State()), msg) && timelimit == old(timelimit) && doVerp == old(doVerp)
    {
      ok := SendCommand("DATA", "DATA", {"354"});
      if !ok {
        return false;
      }
      TwoStepUnix(msg);
      var lines := Explode("\n", Replace("\r", "\n", Replace("\r\n", "\n", msg)));
      var inHeaders := StartsWithHeader(lines[0]);
      SendMessage(lines, inHeaders);
      var saveTimelimit := timelimit;
      timelimit := timelimit * 2;
      ok := SendCommand("DATA END", ".", {"250"});
      timelimit := saveTimelimit;
    }

    /** `mail` */
    method Mail(from: string) returns (ok: bool)
      modifies this`wire, this`replies, this`lastReply, this`error
      ensures (State(), ok) == Issue(old(State()), MailCommand(from, doVerp), {"250"})
    {
      ok := SendCommand("MAIL FROM", MailCommand(from, doVerp), {"250"});
    }

    /** `recipient` */
    method Recipient(address: string) returns (ok: bool)
      modifies this`wire, this`replies, this`lastReply, this`error
      ensures (State(), ok) == Issue(old(State()), RcptCommand(address), {"250", "251"})
    {
      ok := SendCommand("RCPT TO", RcptCommand(address), {"250", "251"});
    }

    /** `reset` */
    method Reset() returns (ok: bool)
      modifies this`wire, this`replies, this`lastReply, this`error
      ensures (State(), ok) == Issue(old(State()), "RSET", {"250"})
    {
      ok := SendCommand("RSET", "RSET", {"250"});
    }

    /** `quit`, which closes the connection whatever the server answers */
    method Quit() returns (ok: bool)
      modifies this`connected, this`wire, this`replies, this`lastReply, this`error
      ensures var (s, accepted) := Issue(old(State()), "QUIT", {"221"});
        State() == s.(connected := false) && ok == accepted
    {
      ok := SendCommand("QUIT", "QUIT", {"221"});
      connected := false;
    }

    /** The loop over the lines of the message; the headers end at a blank line. */
    method SendMessage(lines: seq<string>, startInHeaders: bool)
      modifies this`wire
      ensures wire == old(wire) + Framed(Sent(SplitLines(lines, startInHeaders)))
    {
      var inHeaders := startInHeaders;
      ghost var all, done: seq<string> := Sent(SplitLines(lines, startInHeaders)), [];
      assert lines[0..] == lines;
      for i := 0 to |lines|
        invariant wire == old(wire) + Framed(done)
        invariant all == done + Sent(SplitLines(lines[i..], inHeaders))
      {
        NextGroup(lines, i, inHeaders, all, done);
        if inHeaders && lines[i] == "" {
          inHeaders := false;
        }
        var linesOut := SplitLongLine(lines[i], inHeaders);
        SendLines(linesOut);
        FramedAppend(done, linesOut);
        Assoc(old(wire), Framed(done), Framed(linesOut));
        done := done + linesOut;
      }
      assert done == all;
    }

    /** The loop that breaks one line into pieces within the limit. */
    method SplitLongLine(line: string, inHeaders: bool) returns (linesOut: seq<string>)
      ensures linesOut == Texts(SplitLine(line, inHeaders))
    {
      linesOut := [];
      var rest := line;
      while |rest| > MAX_LINE_LENGTH
        invariant Texts(SplitLine(line, inHeaders)) == linesOut + Texts(SplitLine(rest, inHeaders))
        decreases |rest|
      {
        SplitStep(linesOut, rest, inHeaders);
        var pos := LastSpace(rest[..MAX_LINE_LENGTH]);
        if pos == 0 {
          pos := MAX_LINE_LENGTH - 1;
          linesOut := linesOut + [rest[..pos]];
          rest := rest[pos..];
        } else {
          linesOut := linesOut + [rest[..pos]];
          rest := rest[pos + 1..];
        }
        if inHeaders {
          rest := "\t" + rest;
        }
      }
      ShortLine(rest, inHeaders);
      linesOut := linesOut + [rest];
    }

    /** The loop that sends the pieces, doubling a leading dot. */
    method SendLines(linesOut: seq<string>)
      modifies this`wire
      ensures wire == old(wire) + Framed(linesOut)
    {
      for i := 0 to |linesOut|
        invariant wire == old(wire) + Framed(linesOut[..i])
      {
        var lineOut := linesOut[i];
        if lineOut != "" && lineOut[0] == '.' {
          lineOut := "." + lineOut;
        }
        SentOneMore(old(wire), linesOut, i);
        ClientSend(lineOut + CRLF);
      }
      assert linesOut[..|linesOut|] == linesOut;
    }
  }

  lemma SplitStep(done: seq<string>, line: string, inHeaders: bool)
    requires |line| > MAX_LINE_LENGTH
    ensures var pos := LastSpace(line[..MAX_LINE_LENGTH]);
      var first := line[..if pos == 0 then MAX_LINE_LENGTH - 1 else pos];
      done + Texts(SplitLine(line, inHeaders)) ==
        (done + [first]) + Texts(SplitLine(Remainder(line, inHeaders), inHeaders))
  {
    var next := SplitLine(Remainder(line, inHeaders), inHeaders);
    FirstCut(line, inHeaders);
    FirstText(line, inHeaders);
    TextsCons(SplitLine(line, inHeaders)[0], next);
    LinesAssoc(done, [SplitLine(line, inHeaders)[0].text], Texts(next));
  }

  lemma FirstText(line: string, inHeaders: bool)
    requires |line| > MAX_LINE_LENGTH
    ensures var pos := LastSpace(line[..MAX_LINE_LENGTH]);
      SplitLine(line, inHeaders)[0].text == line[..if pos == 0 then MAX_LINE_LENGTH - 1 else pos]
  {
  }

  lemma LinesAssoc(a: seq<string>, b: seq<string>, c: seq<string>)
    ensures (a + b) + c == a + (b + c)
  {
  }

  lemma SentOneMore(wire: string, lines: seq<string>, i: nat)
    requires i < |lines|
    ensures wire + Framed(lines[..i]) + (Stuffed(lines[i]) + CRLF) == wire + Framed(lines[..i + 1])
  {
    assert lines[..i + 1] == lines[..i] + [lines[i]];
    FramedSnoc(lines[..i], lines[i]);
    Assoc(wire, Framed(lines[..i]), Stuffed(lines[i]) + CRLF);
  }

  // ---- what the transaction puts on the wire -----------------------------------

  lemma TailOfWire(sofar: string, body: string, later: string)
    ensures var w := sofar + body + ("." + CRLF);
      w[..|sofar|] == sofar && w[|sofar|..] + later == body + ("." + CRLF + later)
  {
  }

  /** How a command goes, by the text of the reply. */
  lemma IssuedBy(s: Conn, commandString: string, codes: set<string>)
    requires s.connected && BreakFree(commandString) && AreReplyCodes(codes)
    ensures Issue(s, commandString, codes).0 ==
      Conn(true, s.wire + (commandString + CRLF), if s.replies == [] then [] else s.replies[1..])
    ensures Issue(s, commandString, codes).1 <==> exists c :: c in codes && c <= NextReply(s)
  {
    CodeStarts(NextReply(s), codes);
  }

  lemma IssuedByOne(s: Conn, commandString: string, code: string)
    requires s.connected && BreakFree(commandString) && |code| == 3
    ensures Issue(s, commandString, {code}).1 <==> code <= NextReply(s)
  {
    IssuedBy(s, commandString, {code});
    if code <= NextReply(s) { assert code in {code}; }
  }

  /** The bytes after the DATA command, when the server goes ahead, are exactly
      the framed message, whatever is sent on the connection later; and the phase
      succeeds only if the server then accepts it. */
  lemma TransmitIsReceived(s: Conn, msg: string, later: string)
    requires s.connected && "354" <= NextReply(s)
    ensures var (t, ok) := Transmit(s, msg);
      var sofar := s.wire + ("DATA" + CRLF);
      && |sofar| <= |t.wire| && t.wire[..|sofar|] == sofar
      && Receive(t.wire[|sofar|..] + later) == Some(Received(Sent(SplitMessage(msg)), later))
      && (ok <==> |s.replies| > 1 && "250" <= s.replies[1])
      && t.connected && t.replies == if |s.replies| > 1 then s.replies[2..] else []
  {
    var sofar := s.wire + ("DATA" + CRLF);
    var body := Framed(Sent(SplitMessage(msg)));
    assert BreakFree("DATA") && BreakFree(".");
    IssuedByOne(s, "DATA", "354");
    var s1 := Issue(s, "DATA", {"354"}).0;
    IssuedByOne(s1.(wire := s1.wire + body), ".", "250");
    assert Transmit(s, msg).0.wire == sofar + body + ("." + CRLF);
    TailOfWire(sofar, body, later);
    DataIsTransparent(msg, later);
  }

  /** After any other answer to DATA nothing more is sent. */
  lemma TransmitIsRefused(s: Conn, msg: string)
    requires s.connected && !("354" <= NextReply(s))
    ensures Transmit(s, msg) ==
      (Conn(true, s.wire + ("DATA" + CRLF), if s.replies == [] then [] else s.replies[1..]), false)
  {
    assert BreakFree("DATA");
    IssuedByOne(s, "DATA", "354");
  }
}
