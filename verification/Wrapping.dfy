/** Word wrapping (`wrapText`), for plain bodies and for Q-encoded headers.

    The output is described by rows: a piece of text and the break after it. A
    row list has a printed form (the bytes the method returns) and a meaning
    (the text that a reader who undoes the breaks gets back). */
module Wrapping {
  import opened Strings
  import opened QEncoding
  import opened CharBoundary

  datatype Break = LineEnd | AtSpace | InWord
  datatype Row = Row(text: string, brk: Break)

  /** Plain text, or Q-encoded text in a UTF-8 or another character set. */
  datatype Mode = Plain | Quoted(utf8: bool)

  function BreakText(mode: Mode, le: string, brk: Break): string {
    match brk
    case LineEnd => CRLF
    case AtSpace => if mode.Plain? then le else " =" + le
    case InWord => "=" + CRLF
  }

  function Print(mode: Mode, le: string, rows: seq<Row>): string {
    if rows == [] then ""
    else
      var last := rows[|rows| - 1];
      Print(mode, le, rows[..|rows| - 1]) + last.text + BreakText(mode, le, last.brk)
  }

  function Meant(brk: Break): string {
    match brk case LineEnd => "\n" case AtSpace => " " case InWord => ""
  }

  function Meaning(rows: seq<Row>): string {
    if rows == [] then ""
    else
      var last := rows[|rows| - 1];
      Meaning(rows[..|rows| - 1]) + last.text + Meant(last.brk)
  }

  lemma RowsSnoc(mode: Mode, le: string, rows: seq<Row>, row: Row)
    ensures Print(mode, le, rows + [row]) == Print(mode, le, rows) + row.text + BreakText(mode, le, row.brk)
    ensures Meaning(rows + [row]) == Meaning(rows) + row.text + Meant(row.brk)
  {
    assert (rows + [row])[..|rows|] == rows;
  }

  /** Escapes are whole, and in UTF-8 so are characters. */
  predicate WellFormed(utf8: bool, t: string) {
    if utf8 then IsQUtf8(t) else IsQText(t)
  }

  /** One word, with at most one leading space. */
  predicate IsOneWord(t: string) {
    forall k :: 1 <= k < |t| ==> t[k] != ' '
  }

  /** Only a leading space may go beyond the length. */
  predicate FitsQuoted(length: int, t: string) {
    |t| <= length || (|t| == length + 1 && |t| > 0 && t[0] == ' ')
  }

  predicate RowOk(mode: Mode, length: int, row: Row) {
    && BreakFree(row.text)
    && (|row.text| <= length || IsOneWord(row.text))
    && (mode.Quoted? ==> WellFormed(mode.utf8, row.text) && FitsQuoted(length, row.text))
    && (row.brk.InWord? ==> mode.Quoted? && row.text != "" && length - 13 <= |row.text| <= length)
    && (row.brk.InWord? ==> forall k :: 0 <= k < |row.text| && row.text[k] == ' ' ==> k + 22 < length)
  }

  predicate RowsOk(mode: Mode, length: int, rows: seq<Row>) {
    forall i :: 0 <= i < |rows| ==> RowOk(mode, length, rows[i])
  }

  /** A row ends at a space only when the next word would not have fit, or when a
      word that has to be cut follows and there is too little room to start it. */
  predicate IsGreedy(mode: Mode, length: int, rows: seq<Row>) {
    forall i :: 0 <= i < |rows| - 1 && rows[i].brk.AtSpace? ==>
      || |rows[i].text| + 1 + IndexOf(' ', rows[i + 1].text) > length
      || (mode.Quoted? && rows[i + 1].brk.InWord? && |rows[i].text| + 22 >= length)
  }

  /** The last row ends at a space because there was too little room to start a
      word that has to be cut. */
  predicate IsShortOfRoom(length: int, rows: seq<Row>, word: string) {
    rows != [] && rows[|rows| - 1].brk.AtSpace? ==> |rows[|rows| - 1].text| + 22 >= length && |word| > length
  }

  /** After a cut inside a word more of the word follows. */
  predicate IsJoined(rows: seq<Row>) {
    forall i :: 0 <= i < |rows| - 1 && rows[i].brk.InWord? ==> rows[i + 1].text != ""
  }

  /** The lines of the message: breaks normalised, one trailing break dropped. */
  function Chopped(message: string): string {
    var u := Unix(message);
    if u != "" && u[|u| - 1] == '\n' then u[..|u| - 1] else u
  }

  function LogicalLines(message: string): seq<string> {
    Explode("\n", Chopped(message))
  }

  /** In Q mode: every word is whole, and there is room for the longest
      character (or escape) on a row. */
  predicate CanWrap(mode: Mode, length: int, line: string) {
    mode.Quoted? ==>
      (length >= (if mode.utf8 then 13 else 3) &&
       forall w :: w in Explode(" ", line) ==> WellFormed(mode.utf8, w))
  }

  // ---- undoing the breaks -------------------------------------------------

  /** Each bare LF back into a space, each CRLF back into a line end. */
  function UndoPlain(s: string): string
    decreases |s|
  {
    if s == "" then ""
    else if CRLF <= s then "\n" + UndoPlain(s[2..])
    else if s[0] == '\n' then " " + UndoPlain(s[1..])
    else [s[0]] + UndoPlain(s[1..])
  }

  /** Quoted-printable reading: a `=` before a break removes both, any other
      CRLF is a line end. */
  function UndoQuoted(le: string, s: string): string
    decreases |s|
  {
    if s == "" then ""
    else if "=" + CRLF <= s then UndoQuoted(le, s[3..])
    else if "=" + le <= s then UndoQuoted(le, s[1 + |le|..])
    else if CRLF <= s then "\n" + UndoQuoted(le, s[2..])
    else [s[0]] + UndoQuoted(le, s[1..])
  }

  lemma {:induction false} RowsCons(mode: Mode, le: string, row: Row, rest: seq<Row>)
    ensures Print(mode, le, [row] + rest) == row.text + (BreakText(mode, le, row.brk) + Print(mode, le, rest))
    ensures Meaning([row] + rest) == row.text + (Meant(row.brk) + Meaning(rest))
    decreases |rest|
  {
    if rest == [] {
      assert [row] + rest == [row] && [row][..0] == [];
      assert Print(mode, le, [row]) == "" + row.text + BreakText(mode, le, row.brk);
    } else {
      var n := |rest| - 1;
      var last := rest[n];
      assert [row] + rest == ([row] + rest[..n]) + [last];
      RowsCons(mode, le, row, rest[..n]);
      RowsSnoc(mode, le, [row] + rest[..n], last);
      Assoc4(row.text, BreakText(mode, le, row.brk), Print(mode, le, rest[..n]),
        last.text + BreakText(mode, le, last.brk));
      Assoc4(row.text, Meant(row.brk), Meaning(rest[..n]), last.text + Meant(last.brk));
      Assoc(Print(mode, le, [row] + rest[..n]), last.text, BreakText(mode, le, last.brk));
      Assoc(Print(mode, le, rest[..n]), last.text, BreakText(mode, le, last.brk));
      Assoc(Meaning([row] + rest[..n]), last.text, Meant(last.brk));
      Assoc(Meaning(rest[..n]), last.text, Meant(last.brk));
    }
  }

  lemma Assoc4(a: string, b: string, c: string, d: string)
    ensures (a + (b + c)) + d == a + (b + (c + d))
  {
  }

  lemma {:induction false} UndoPlainText(t: string, b: string)
    requires BreakFree(t)
    ensures UndoPlain(t + b) == t + UndoPlain(b)
  {
    if t == "" {
      assert t + b == b;
    } else {
      assert (t + b)[0] == t[0] && (t + b)[1..] == t[1..] + b;
      UndoPlainText(t[1..], b);
    }
  }

  lemma {:induction false} PlainIsUndone(length: int, rows: seq<Row>)
    requires RowsOk(Plain, length, rows)
    ensures UndoPlain(Print(Plain, "\n", rows)) == Meaning(rows)
  {
    if rows != [] {
      var row, rest := rows[0], rows[1..];
      assert rows == [row] + rest && RowOk(Plain, length, row);
      RowsCons(Plain, "\n", row, rest);
      PlainIsUndone(length, rest);
      UndoPlainText(row.text, BreakText(Plain, "\n", row.brk) + Print(Plain, "\n", rest));
      var tail := BreakText(Plain, "\n", row.brk) + Print(Plain, "\n", rest);
      assert tail[|BreakText(Plain, "\n", row.brk)|..] == Print(Plain, "\n", rest);
    }
  }

  lemma {:induction false} UndoQuotedText(le: string, t: string, b: string)
    requires IsLineEnding(le) && BreakFree(t) && IsQText(t)
    ensures UndoQuoted(le, t + b) == t + UndoQuoted(le, b)
    decreases |t|
  {
    if t == "" {
      assert t + b == b;
    } else {
      var s := t + b;
      if t[0] == '=' {
        UndoQuotedText(le, t[3..], b);
        UndoQuotedEscape(le, s);
        CutFront(t, b, 3, UndoQuoted(le, b));
      } else {
        UndoQuotedText(le, t[1..], b);
        UndoQuotedChar(le, s);
        CutFront(t, b, 1, UndoQuoted(le, b));
      }
    }
  }

  lemma CutFront(t: string, b: string, k: nat, u: string)
    requires 0 < k <= |t|
    ensures (t + b)[k..] == t[k..] + b && (t + b)[..k] == t[..k] && [(t + b)[0]] == t[..1]
    ensures t[..k] + (t[k..] + u) == t + u
  {
    assert t == t[..k] + t[k..];
    Assoc(t[..k], t[k..], u);
  }

  lemma UndoQuotedEscape(le: string, s: string)
    requires IsLineEnding(le) && StartsWithEscape(s)
    ensures UndoQuoted(le, s) == s[..3] + UndoQuoted(le, s[3..])
  {
    UndoQuotedChar(le, s);
    UndoQuotedChar(le, s[1..]);
    UndoQuotedChar(le, s[2..]);
    assert s[1..][1..] == s[2..] && s[2..][1..] == s[3..];
  }

  lemma UndoQuotedChar(le: string, s: string)
    requires IsLineEnding(le) && s != "" && s[0] != '\r'
    requires s[0] == '=' ==> |s| > 1 && IsHex(s[1])
    ensures UndoQuoted(le, s) == [s[0]] + UndoQuoted(le, s[1..])
  {
    assert !(CRLF <= s);
    if s[0] == '=' {
      assert ("=" + CRLF)[1] == '\r' && (("=" + le)[1] == '\r' || ("=" + le)[1] == '\n');
    } else {
      assert ("=" + CRLF)[0] == '=' && ("=" + le)[0] == '=';
    }
  }

  /** A printed row list never starts with a bare LF in Q mode. */
  lemma PrintStart(utf8: bool, le: string, length: int, rows: seq<Row>)
    requires RowsOk(Quoted(utf8), length, rows)
    ensures var s := Print(Quoted(utf8), le, rows); s != "" ==> s[0] != '\n'
  {
    if rows != [] {
      assert rows == [rows[0]] + rows[1..] && RowOk(Quoted(utf8), length, rows[0]);
      RowsCons(Quoted(utf8), le, rows[0], rows[1..]);
    }
  }

  lemma UndoQuotedBreak(utf8: bool, le: string, brk: Break, b: string)
    requires IsLineEnding(le) && (b != "" ==> b[0] != '\n')
    ensures UndoQuoted(le, BreakText(Quoted(utf8), le, brk) + b) == Meant(brk) + UndoQuoted(le, b)
  {
    var s := BreakText(Quoted(utf8), le, brk) + b;
    match brk
    case LineEnd =>
      assert s[0] == '\r' && ("=" + CRLF)[0] == '=' && ("=" + le)[0] == '=' && s[2..] == b;
    case InWord =>
      assert "=" + CRLF <= s && s[3..] == b;
    case AtSpace =>
      UndoQuotedChar(le, s);
      assert s[1..] == "=" + le + b;
      UndoSoftBreak(le, b);
  }

  lemma UndoSoftBreak(le: string, b: string)
    requires IsLineEnding(le) && (b != "" ==> b[0] != '\n')
    ensures UndoQuoted(le, "=" + le + b) == UndoQuoted(le, b)
  {
    var s := "=" + le + b;
    assert "=" + le <= s && s[1 + |le|..] == b;
    if "=" + CRLF <= s {
      assert s[..3] == "=" + CRLF && s[1] == '\r' && s[2] == '\n';
      assert le == CRLF;
    }
  }

  lemma {:induction false} QuotedIsUndone(utf8: bool, le: string, length: int, rows: seq<Row>)
    requires IsLineEnding(le) && RowsOk(Quoted(utf8), length, rows)
    ensures UndoQuoted(le, Print(Quoted(utf8), le, rows)) == Meaning(rows)
  {
    if rows != [] {
      var row, rest := rows[0], rows[1..];
      assert rows == [row] + rest && RowOk(Quoted(utf8), length, row);
      RowsCons(Quoted(utf8), le, row, rest);
      QuotedIsUndone(utf8, le, length, rest);
      if utf8 { QUtf8IsQText(row.text); }
      UndoQuotedText(le, row.text, BreakText(Quoted(utf8), le, row.brk) + Print(Quoted(utf8), le, rest));
      PrintStart(utf8, le, length, rest);
      UndoQuotedBreak(utf8, le, row.brk, Print(Quoted(utf8), le, rest));
    }
  }

  // ---- a single long word ---------------------------------------------------

  function Texts(rows: seq<Row>): seq<string> {
    seq(|rows|, i requires 0 <= i < |rows| => rows[i].text)
  }

  /** The rows are pieces of one word. */
  predicate SpellWord(utf8: bool, le: string, rows: seq<Row>, word: string) {
    && rows != [] && Concat(Texts(rows)) == word
    && Print(Quoted(utf8), le, rows) == Implode("=" + CRLF, Texts(rows)) + CRLF
    && forall i :: 0 <= i < |rows| - 1 ==> rows[i].brk.InWord?
  }

  lemma LastPiece(utf8: bool, le: string, row: Row)
    requires row.brk.LineEnd?
    ensures SpellWord(utf8, le, [row], row.text)
  {
    RowsCons(Quoted(utf8), le, row, []);
    assert [row] + [] == [row] && Texts([row]) == [row.text];
    assert Concat([row.text]) == row.text + Concat([row.text][1..]);
  }

  lemma NextPiece(utf8: bool, le: string, row: Row, rest: seq<Row>, word: string)
    requires row.brk.InWord? && SpellWord(utf8, le, rest, word)
    ensures SpellWord(utf8, le, [row] + rest, row.text + word)
  {
    RowsCons(Quoted(utf8), le, row, rest);
    assert Texts([row] + rest) == [row.text] + Texts(rest);
    PrependPiece(row.text, Texts(rest));
  }

  /** When the meaning is one line without spaces, the rows are the pieces of
      that one word. */
  lemma {:induction false} OneWordRows(utf8: bool, le: string, length: int, rows: seq<Row>, word: string)
    requires RowsOk(Quoted(utf8), length, rows) && Meaning(rows) == word + "\n"
    requires ' ' !in word && '\n' !in word
    ensures SpellWord(utf8, le, rows, word)
  {
    assert rows != [];
    var row, rest := rows[0], rows[1..];
    assert rows == [row] + rest && RowOk(Quoted(utf8), length, row);
    RowsCons(Quoted(utf8), le, row, rest);
    FirstRowOf(row, Meaning(rest), word);
    if row.brk.LineEnd? {
      NoMeaningNoRows(utf8, length, rest);
      LastPiece(utf8, le, row);
    } else {
      OneWordRows(utf8, le, length, rest, word[|row.text|..]);
      NextPiece(utf8, le, row, rest, word[|row.text|..]);
    }
  }

  lemma FirstRowOf(row: Row, rest: string, word: string)
    requires row.text + (Meant(row.brk) + rest) == word + "\n"
    requires ' ' !in word && '\n' !in word && BreakFree(row.text)
    ensures !row.brk.AtSpace?
    ensures row.brk.LineEnd? ==> rest == "" && row.text == word
    ensures row.brk.InWord? ==>
      |row.text| <= |word| && word == row.text + word[|row.text|..] && rest == word[|row.text|..] + "\n"
  {
    var m := row.text + (Meant(row.brk) + rest);
    var n := |row.text|;
    assert m[|word|] == '\n';
    assert forall i :: 0 <= i < n ==> row.text[i] == m[i];
    assert m[n..] == Meant(row.brk) + rest && m[..n] == row.text;
    assert forall i :: 0 <= i < |word| ==> m[i] == word[i] && word[i] in word;
    if row.brk.InWord? {
      assert (word + "\n")[n..] == word[n..] + "\n";
    } else {
      assert m[n] == Meant(row.brk)[0];
    }
  }

  lemma PrependPiece(x: string, rest: seq<string>)
    requires rest != []
    ensures Implode("=" + CRLF, [x] + rest) + CRLF == x + ("=" + CRLF + (Implode("=" + CRLF, rest) + CRLF))
    ensures Concat([x] + rest) == x + Concat(rest)
  {
    ImplodeCons("=" + CRLF, x, rest);
    Assoc(x, "=" + CRLF, Implode("=" + CRLF, rest));
    Assoc(x, "=" + CRLF + Implode("=" + CRLF, rest), CRLF);
    Assoc("=" + CRLF, Implode("=" + CRLF, rest), CRLF);
    assert ([x] + rest)[1..] == rest;
  }

  lemma NoMeaningNoRows(utf8: bool, length: int, rows: seq<Row>)
    requires RowsOk(Quoted(utf8), length, rows) && Meaning(rows) == ""
    ensures rows == []
  {
  }

  // ---- cutting one long word ---------------------------------------------

  lemma {:induction false} QTextCut(t: string, k: nat)
    requires IsQText(t) && k <= |t|
    requires forall i :: 0 <= i && k - 2 <= i < k ==> t[i] != '='
    ensures IsQText(t[..k]) && IsQText(t[k..])
    decreases |t|
  {
    if k > 0 {
      var n := if t[0] == '=' then 3 else 1;
      QTextCut(t[n..], k - n);
      assert t[n..][k - n..] == t[k..] && t[..k][n..] == t[n..][..k - n];
    }
  }

  lemma WellFormedAppend(utf8: bool, a: string, b: string)
    requires WellFormed(utf8, a) && WellFormed(utf8, b)
    ensures WellFormed(utf8, a + b)
  {
    if utf8 { QUtf8Append(a, b); } else { QDecodeAppend(a, b); }
  }

  lemma {:induction false} EqualsHasDigits(t: string, i: nat)
    requires IsQText(t) && i < |t| && t[i] == '='
    ensures i + 2 < |t| && t[i + 1] != '=' && t[i + 2] != '='
    decreases |t|
  {
    var n := if t[0] == '=' then 3 else 1;
    if i >= n { EqualsHasDigits(t[n..], i - n); }
  }

  /** Where a word is cut when `len` characters are left: not inside an escape
      or a character. */
  method CutLength(word: string, len: nat, utf8: bool) returns (r: nat)
    requires WellFormed(utf8, word) && len >= (if utf8 then 13 else 3)
    ensures 0 < r <= len <= r + 12
    ensures var k := Min(r, |word|); WellFormed(utf8, word[..k]) && WellFormed(utf8, word[k..])
  {
    r := len;
    CharAt(word, len - 1);
    CharAt(word, len - 2);
    if utf8 {
      r := Utf8CharBoundary(word, r);
    } else if Substr(word, len - 1, 1) == "=" {
      r := len - 1;
    } else if Substr(word, len - 2, 1) == "=" {
      r := len - 2;
    }
    if !utf8 {
      CutBeforeEscape(word, len, r);
    }
  }

  lemma CharAt(s: string, i: nat)
    ensures Substr(s, i, 1) == "=" <==> i < |s| && s[i] == '='
  {
    if i < |s| { assert Substr(s, i, 1) == [s[i]]; }
  }

  lemma NoEscapeBefore(t: string, r: nat)
    requires IsQText(t) && r < |t| && t[r] == '='
    ensures forall i :: 0 <= i && r - 2 <= i < r ==> t[i] != '='
  {
    forall i | 0 <= i && r - 2 <= i < r ensures t[i] != '=' {
      if t[i] == '=' { EqualsHasDigits(t, i); }
    }
  }

  lemma CutBeforeEscape(t: string, len: nat, r: nat)
    requires IsQText(t) && len >= 3
    requires r == if len - 1 < |t| && t[len - 1] == '=' then len - 1
                  else if len - 2 < |t| && t[len - 2] == '=' then len - 2 else len
    ensures var k := Min(r, |t|); IsQText(t[..k]) && IsQText(t[k..])
  {
    if r >= |t| {
      assert t[..|t|] == t && t[|t|..] == "";
    } else if r < len {
      NoEscapeBefore(t, r);
      QTextCut(t, r);
    } else {
      LastTwo(t, len);
      QTextCut(t, r);
    }
  }

  lemma LastTwo(t: string, len: nat)
    requires 2 <= len <= |t| && t[len - 1] != '=' && t[len - 2] != '='
    ensures forall i :: 0 <= i && len - 2 <= i < len ==> t[i] != '='
  {
  }

  /** The state of the buffered output: the rows written so far and the text
      not yet ended by a break. */
  ghost predicate Holds(mode: Mode, le: string, length: int, out: string, rows: seq<Row>, buf: string, text: string) {
    out == Print(mode, le, rows) && RowsOk(mode, length, rows) && Meaning(rows) + buf == text
  }

  lemma AddRow(mode: Mode, le: string, length: int, out: string, rows: seq<Row>, row: Row, text: string)
    requires Holds(mode, le, length, out, rows, row.text, text) && RowOk(mode, length, row)
    ensures Holds(mode, le, length, out + (row.text + BreakText(mode, le, row.brk)), rows + [row], "",
      text + Meant(row.brk))
  {
    RowsSnoc(mode, le, rows, row);
    Assoc(out, row.text, BreakText(mode, le, row.brk));
    RowsOkSnoc(mode, length, rows, row);
    assert Meaning(rows + [row]) + "" == Meaning(rows + [row]);
  }

  lemma RowsOkSnoc(mode: Mode, length: int, rows: seq<Row>, row: Row)
    requires RowsOk(mode, length, rows) && RowOk(mode, length, row)
    ensures RowsOk(mode, length, rows + [row])
  {
  }

  /** More text in the buffer. */
  lemma AddText(mode: Mode, le: string, length: int, out: string, rows: seq<Row>, buf: string, more: string,
      text: string)
    requires Holds(mode, le, length, out, rows, buf, text)
    ensures Holds(mode, le, length, out, rows, buf + more, text + more)
  {
    assert Meaning(rows) + (buf + more) == Meaning(rows) + buf + more;
  }

  /** Break-free text without spaces that splits no escape or character. */
  predicate IsPiece(utf8: bool, t: string) {
    WellFormed(utf8, t) && BreakFree(t) && ' ' !in t
  }

  /** The loop that cuts a word longer than a row into rows; its last piece
      stays in the buffer. */
  method BreakWord(word: string, length: nat, utf8: bool, le: string, message: string, ghost rows0: seq<Row>,
      ghost text: string)
    returns (out: string, buf: string, ghost rows: seq<Row>)
    requires word != "" && IsPiece(utf8, word) && length >= (if utf8 then 13 else 3)
    requires Holds(Quoted(utf8), le, length, message, rows0, "", text) && IsJoined(rows0)
    requires IsGreedy(Quoted(utf8), length, rows0) && IsShortOfRoom(length, rows0, word)
    ensures Holds(Quoted(utf8), le, length, out, rows, buf, text + word) && IsJoined(rows)
    ensures Pending(Quoted(utf8), length, rows, buf)
    ensures 0 < |buf| <= length && IsPiece(utf8, buf)
  {
    out, buf, rows := message, "", rows0;
    var rest := word;
    ghost var done := text;
    while |rest| > 0
      invariant Holds(Quoted(utf8), le, length, out, rows, buf, done) && done + rest == text + word
      invariant IsJoined(rows) && (rest != "" ==> buf == "")
      invariant rest == "" ==> 0 < |buf| <= length && IsPiece(utf8, buf)
      invariant IsPiece(utf8, rest) && IsGreedy(Quoted(utf8), length, rows) && IsShortOfRoom(length, rows, rest)
    {
      var len := CutLength(rest, length, utf8);
      var part := Substr(rest, 0, len);
      ghost var whole := rest;
      rest := Substr(rest, len, |rest|);
      PartsOf(utf8, whole, len, part, rest);
      TakePart(utf8, le, length, out, rows, part, done, rest);
      done := done + part;
      if |rest| > 0 {
        PartRow(utf8, le, length, out, rows, part, done);
        GreedyCut(utf8, length, rows, part, whole);
        out := out + (part + "=" + CRLF);
        rows := rows + [Row(part, InWord)];
      } else {
        buf := part;
      }
    }
    assert done + "" == done;
  }

  lemma GreedyCut(utf8: bool, length: nat, rows: seq<Row>, part: string, word: string)
    requires IsGreedy(Quoted(utf8), length, rows) && IsShortOfRoom(length, rows, word)
    ensures IsGreedy(Quoted(utf8), length, rows + [Row(part, InWord)])
  {
  }

  /** One piece of the word, as the buffer. */
  lemma TakePart(utf8: bool, le: string, length: nat, out: string, rows: seq<Row>, part: string, done: string,
      rest: string)
    requires Holds(Quoted(utf8), le, length, out, rows, "", done)
    ensures (done + part) + rest == done + (part + rest)
    ensures Holds(Quoted(utf8), le, length, out, rows, part, done + part)
  {
    AddText(Quoted(utf8), le, length, out, rows, "", part, done);
    assert "" + part == part;
    Assoc(done, part, rest);
  }

  /** A piece as a row of its own, when more of the word follows. */
  lemma PartRow(utf8: bool, le: string, length: nat, out: string, rows: seq<Row>, part: string, done: string)
    requires Holds(Quoted(utf8), le, length, out, rows, part, done) && IsJoined(rows)
    requires IsPiece(utf8, part) && part != "" && length - 13 <= |part| <= length
    ensures Holds(Quoted(utf8), le, length, out + (part + "=" + CRLF), rows + [Row(part, InWord)], "", done)
    ensures IsJoined(rows + [Row(part, InWord)])
  {
    Assoc(part, "=", CRLF);
    AddRow(Quoted(utf8), le, length, out, rows, Row(part, InWord), done);
    assert done + Meant(InWord) == done;
  }

  lemma PartsOf(utf8: bool, whole: string, len: nat, part: string, rest: string)
    requires IsPiece(utf8, whole) && 0 < len && whole != ""
    requires var k := Min(len, |whole|); WellFormed(utf8, whole[..k]) && WellFormed(utf8, whole[k..])
    requires part == Substr(whole, 0, len) && rest == Substr(whole, len, |whole|)
    ensures part + rest == whole && IsPiece(utf8, part) && IsPiece(utf8, rest)
    ensures part != "" && |part| <= len && (rest != "" ==> |part| == len)
  {
    var k := Min(len, |whole|);
    assert part == whole[..k] && rest == whole[k..];
  }

  // ---- one line, and the message -----------------------------------------

  /** What the buffer may hold between two words. */
  predicate BufOk(mode: Mode, length: int, buf: string) {
    && BreakFree(buf)
    && (|buf| <= length || IsOneWord(buf))
    && (mode.Quoted? ==> WellFormed(mode.utf8, buf) && FitsQuoted(length, buf))
  }

  /** The last row ends at a space because the buffer's first word did not fit. */
  predicate Pending(mode: Mode, length: int, rows: seq<Row>, buf: string) {
    IsGreedy(mode, length, rows) &&
    (rows != [] && rows[|rows| - 1].brk.AtSpace? ==>
       |rows[|rows| - 1].text| + 1 + IndexOf(' ', buf) > length)
  }

  lemma {:induction false} FirstWordStays(buf: string, word: string)
    ensures IndexOf(' ', buf + " " + word) == IndexOf(' ', buf)
  {
    var all := buf + " " + word;
    if buf != "" && buf[0] != ' ' {
      assert all[1..] == buf[1..] + " " + word;
      FirstWordStays(buf[1..], word);
    }
  }

  lemma FirstWordWhole(word: string)
    requires ' ' !in word
    ensures IndexOf(' ', word) == |word|
  {
    assert forall i :: 0 <= i < |word| ==> word[i] in word;
  }

  lemma GreedySnoc(mode: Mode, length: int, rows: seq<Row>, row: Row)
    requires Pending(mode, length, rows, row.text)
    ensures IsGreedy(mode, length, rows + [row])
  {
  }

  /** What every step of the word loop keeps. */
  ghost predicate LineState(mode: Mode, le: string, length: int, out: string, rows: seq<Row>, buf: string,
      text: string) {
    && Holds(mode, le, length, out, rows, buf, text)
    && BufOk(mode, length, buf)
    && Pending(mode, length, rows, buf)
    && IsJoined(rows) && (rows != [] && rows[|rows| - 1].brk.InWord? ==> buf != "")
  }

  predicate FitsAlone(mode: Mode, length: int, word: string) {
    BreakFree(word) && ' ' !in word && (mode.Quoted? ==> WellFormed(mode.utf8, word) && |word| <= length)
  }

  /** The step for a word that is not cut. */
  method AddWord(mode: Mode, le: string, length: int, message: string, ghost rows0: seq<Row>, buf0: string,
      word: string,
                 firstWord: bool, ghost text: string)
    returns (out: string, buf: string, ghost rows: seq<Row>)
    requires LineState(mode, le, length, message, rows0, buf0, text) && FitsAlone(mode, length, word)
    requires firstWord ==> buf0 == "" && (rows0 != [] ==> rows0[|rows0| - 1].brk.LineEnd?)
    ensures LineState(mode, le, length, out, rows, buf, text + (if firstWord then word else " " + word))
  {
    out, buf, rows := message, buf0, rows0;
    var oldBuf := buf;
    if !firstWord {
      buf := buf + " ";
    }
    buf := buf + word;
    if |buf| > length && oldBuf != "" {
      BreakAtSpace(mode, le, length, out, rows, oldBuf, word, text);
      out := out + (oldBuf + BreakText(mode, le, AtSpace));
      rows := rows + [Row(oldBuf, AtSpace)];
      buf := word;
    } else {
      KeepOnRow(mode, le, length, out, rows, oldBuf, word, firstWord, text);
    }
  }

  lemma BreakHolds(mode: Mode, le: string, length: int, out: string, rows: seq<Row>, buf: string, word: string,
      text: string)
    requires Holds(mode, le, length, out, rows, buf, text) && BufOk(mode, length, buf)
    ensures Holds(mode, le, length, out + (buf + BreakText(mode, le, AtSpace)), rows + [Row(buf, AtSpace)], word,
      text + (" " + word))
  {
    AddRow(mode, le, length, out, rows, Row(buf, AtSpace), text);
    AddText(mode, le, length, out + (buf + BreakText(mode, le, AtSpace)), rows + [Row(buf, AtSpace)], "", word,
      text + " ");
    assert "" + word == word;
    Assoc(text, " ", word);
  }

  lemma BreakAtSpace(mode: Mode, le: string, length: int, out: string, rows: seq<Row>, buf: string, word: string,
      text: string)
    requires LineState(mode, le, length, out, rows, buf, text) && FitsAlone(mode, length, word)
    requires |buf| + 1 + |word| > length
    ensures LineState(mode, le, length, out + (buf + BreakText(mode, le, AtSpace)), rows + [Row(buf, AtSpace)], word,
      text + (" " + word))
  {
    BreakHolds(mode, le, length, out, rows, buf, word, text);
    JoinedSnoc(rows, Row(buf, AtSpace));
    GreedyBreak(mode, length, rows, buf, word);
    BufAfter(mode, length, "", word, true);
  }

  lemma KeepOnRow(mode: Mode, le: string, length: int, out: string, rows: seq<Row>, buf: string, word: string,
      firstWord: bool, text: string)
    requires LineState(mode, le, length, out, rows, buf, text) && FitsAlone(mode, length, word)
    requires firstWord ==> buf == "" && (rows != [] ==> rows[|rows| - 1].brk.LineEnd?)
    requires buf == "" || |buf| + |(if firstWord then word else " " + word)| <= length
    ensures var more := if firstWord then word else " " + word;
      LineState(mode, le, length, out, rows, (if firstWord then buf else buf + " ") + word, text + more)
  {
    var more := if firstWord then word else " " + word;
    var all := (if firstWord then buf else buf + " ") + word;
    assert all == buf + more;
    AddText(mode, le, length, out, rows, buf, more, text);
    BufAfter(mode, length, buf, word, firstWord);
    if !firstWord { FirstWordStays(buf, word); }
  }

  lemma GreedyBreak(mode: Mode, length: int, rows: seq<Row>, buf: string, word: string)
    requires ' ' !in word && |buf| + 1 + |word| > length && Pending(mode, length, rows, buf)
    ensures Pending(mode, length, rows + [Row(buf, AtSpace)], word)
  {
    FirstWordWhole(word);
    GreedySnoc(mode, length, rows, Row(buf, AtSpace));
  }

  lemma BufAfter(mode: Mode, length: int, buf: string, word: string, firstWord: bool)
    requires BufOk(mode, length, buf) && BreakFree(word) && ' ' !in word
    requires mode.Quoted? ==> WellFormed(mode.utf8, word) && |word| <= length
    requires firstWord ==> buf == ""
    ensures BufOk(mode, length, word)
    ensures var all := if firstWord then buf + word else buf + " " + word;
      |all| <= length || buf == "" ==> BufOk(mode, length, all)
  {
    var all := if firstWord then buf + word else buf + " " + word;
    if firstWord {
      assert all == word;
    } else if mode.Quoted? {
      SpaceIsWellFormed(mode.utf8);
      WellFormedAppend(mode.utf8, buf, " ");
      WellFormedAppend(mode.utf8, buf + " ", word);
    }
  }

  lemma SpaceIsWellFormed(utf8: bool)
    ensures WellFormed(utf8, " ")
  {
    assert " "[1..] == "";
  }

  /** The step for a word longer than a row, in Q mode: fill the current row if
      more than 20 characters of it are left, then cut the rest into rows. */
  method AddLongWord(utf8: bool, le: string, length: nat, message: string, ghost rows0: seq<Row>, buf0: string,
      word: string,
                     firstWord: bool, ghost text: string)
    returns (out: string, buf: string, ghost rows: seq<Row>)
    requires LineState(Quoted(utf8), le, length, message, rows0, buf0, text) && length >= (if utf8 then 13 else 3)
    requires IsPiece(utf8, word) && |word| > length
    requires firstWord ==> buf0 == "" && (rows0 != [] ==> rows0[|rows0| - 1].brk.LineEnd?)
    ensures LineState(Quoted(utf8), le, length, out, rows, buf, text + (if firstWord then word else " " + word))
  {
    out, buf, rows := message, buf0, rows0;
    var rest := word;
    ghost var done := text;
    if !firstWord {
      var spaceLeft := length - |buf| - |CRLF|;
      if spaceLeft > 20 {
        var len := CutLength(rest, spaceLeft, utf8);
        var part := Substr(rest, 0, len);
        rest := Substr(rest, len, |rest|);
        FillRow(utf8, le, length, out, rows, buf, word, len, text);
        buf := buf + " " + part;
        out := out + (buf + "=" + CRLF);
        rows := rows + [Row(buf, InWord)];
        done := text + (" " + part);
      } else {
        EndRow(utf8, le, length, out, rows, buf, word, text);
        out := out + (buf + BreakText(Quoted(utf8), le, AtSpace));
        rows := rows + [Row(buf, AtSpace)];
        done := text + " ";
      }
      buf := "";
    }
    out, buf, rows := BreakWord(rest, length, utf8, le, out, rows, done);
  }

  /** A row without room for the start of the word. */
  lemma EndRow(utf8: bool, le: string, length: nat, out: string, rows: seq<Row>, buf: string, word: string,
      text: string)
    requires LineState(Quoted(utf8), le, length, out, rows, buf, text) && |word| > length && |buf| + 22 >= length
    ensures var mode := Quoted(utf8); var ended := rows + [Row(buf, AtSpace)];
      && Holds(mode, le, length, out + (buf + BreakText(mode, le, AtSpace)), ended, "", text + " ")
      && IsJoined(ended) && IsGreedy(mode, length, ended) && IsShortOfRoom(length, ended, word)
      && text + " " + word == text + (" " + word)
  {
    AddRow(Quoted(utf8), le, length, out, rows, Row(buf, AtSpace), text);
    GreedySnoc(Quoted(utf8), length, rows, Row(buf, AtSpace));
    JoinedSnoc(rows, Row(buf, AtSpace));
    Assoc(text, " ", word);
  }

  lemma FillRow(utf8: bool, le: string, length: nat, out: string, rows: seq<Row>, buf: string, word: string,
      len: nat, text: string)
    requires LineState(Quoted(utf8), le, length, out, rows, buf, text)
    requires IsPiece(utf8, word) && |word| > length
    requires 0 < len <= length - |buf| - |CRLF| <= len + 12 && length - |buf| - |CRLF| > 20
    requires var k := Min(len, |word|); WellFormed(utf8, word[..k]) && WellFormed(utf8, word[k..])
    ensures var part := Substr(word, 0, len); var rest := Substr(word, len, |word|); var full := buf + " " + part;
      && Holds(Quoted(utf8), le, length, out + (full + "=" + CRLF), rows + [Row(full, InWord)], "", text + (" " + part))
      && IsPiece(utf8, rest) && rest != "" && IsJoined(rows + [Row(full, InWord)])
      && IsGreedy(Quoted(utf8), length, rows + [Row(full, InWord)])
      && text + (" " + part) + rest == text + (" " + word)
  {
    var part := Substr(word, 0, len);
    var rest := Substr(word, len, |word|);
    PartsOf(utf8, word, len, part, rest);
    FilledRowOk(utf8, length, buf, part);
    FillIsGreedy(utf8, length, rows, buf, part);
    Assoc(buf, " ", part);
    AddText(Quoted(utf8), le, length, out, rows, buf, " " + part, text);
    var full := buf + " " + part;
    AddRow(Quoted(utf8), le, length, out, rows, Row(full, InWord), text + (" " + part));
    Assoc(full, "=", CRLF);
    assert text + (" " + part) + "" == text + (" " + part);
    Assoc(" ", part, rest);
    Assoc(text, " " + part, rest);
  }

  /** A row that a part of the next word fills ends inside that word. */
  lemma FillIsGreedy(utf8: bool, length: nat, rows: seq<Row>, buf: string, part: string)
    requires Pending(Quoted(utf8), length, rows, buf)
    ensures IsGreedy(Quoted(utf8), length, rows + [Row(buf + " " + part, InWord)])
  {
    FirstWordStays(buf, part);
    GreedySnoc(Quoted(utf8), length, rows, Row(buf + " " + part, InWord));
  }

  lemma FilledRowOk(utf8: bool, length: nat, buf: string, part: string)
    requires BufOk(Quoted(utf8), length, buf) && IsPiece(utf8, part) && part != ""
    requires length - 13 <= |buf| + 1 + |part| <= length && |buf| + 22 < length
    ensures RowOk(Quoted(utf8), length, Row(buf + " " + part, InWord))
  {
    SpaceIsWellFormed(utf8);
    WellFormedAppend(utf8, buf, " ");
    WellFormedAppend(utf8, buf + " ", part);
  }

  /** The word loop over one line, and the CRLF that ends it. */
  method WrapLine(mode: Mode, le: string, length: int, message: string, ghost rows0: seq<Row>, line: string,
      ghost text: string)
    returns (out: string, ghost rows: seq<Row>)
    requires LineState(mode, le, length, message, rows0, "", text) && BreakFree(line) && CanWrap(mode, length, line)
    requires rows0 != [] ==> rows0[|rows0| - 1].brk.LineEnd?
    ensures LineState(mode, le, length, out, rows, "", text + (line + "\n"))
    ensures rows != [] && rows[|rows| - 1].brk.LineEnd?
  {
    out, rows := message, rows0;
    var words := Explode(" ", line);
    var buf := "";
    var firstWord := true;
    WordsOfLine(line);
    ghost var done := text;
    for i := 0 to |words|
      invariant LineState(mode, le, length, out, rows, buf, done)
      invariant done == UpToWord(text, words, i)
      invariant firstWord <==> i == 0
      invariant firstWord ==> buf == "" && (rows != [] ==> rows[|rows| - 1].brk.LineEnd?)
    {
      var word := words[i];
      assert word in words;
      if mode.Quoted? && |word| > length {
        out, buf, rows := AddLongWord(mode.utf8, le, length, out, rows, buf, word, firstWord, done);
      } else {
        out, buf, rows := AddWord(mode, le, length, out, rows, buf, word, firstWord, done);
      }
      NextWord(text, words, i);
      done := done + (if firstWord then word else " " + word);
      firstWord := false;
    }
    AllWords(text, line);
    EndLine(mode, le, length, out, rows, buf, done);
    out := out + (buf + CRLF);
    rows := rows + [Row(buf, LineEnd)];
    Assoc(text, line, "\n");
  }

  lemma EndLine(mode: Mode, le: string, length: int, out: string, rows: seq<Row>, buf: string, text: string)
    requires LineState(mode, le, length, out, rows, buf, text) && (mode.Quoted? ==> length >= 3)
    ensures LineState(mode, le, length, out + (buf + CRLF), rows + [Row(buf, LineEnd)], "", text + "\n")
  {
    AddRow(mode, le, length, out, rows, Row(buf, LineEnd), text);
    JoinedSnoc(rows, Row(buf, LineEnd));
    NothingPending(mode, length, rows, buf);
  }

  lemma JoinedSnoc(rows: seq<Row>, row: Row)
    requires IsJoined(rows) && (rows != [] && rows[|rows| - 1].brk.InWord? ==> row.text != "")
    ensures IsJoined(rows + [row])
  {
  }

  /** After the end of a line the buffer starts afresh. */
  lemma NothingPending(mode: Mode, length: int, rows: seq<Row>, buf: string)
    requires BufOk(mode, length, buf) && Pending(mode, length, rows, buf) && (mode.Quoted? ==> length >= 3)
    ensures BufOk(mode, length, "") && Pending(mode, length, rows + [Row(buf, LineEnd)], "")
  {
    GreedySnoc(mode, length, rows, Row(buf, LineEnd));
  }

  /** The text once the first `i` words of the line are taken in. */
  function UpToWord(text: string, words: seq<string>, i: nat): string
    requires i <= |words|
  {
    if i == 0 then text else text + Implode(" ", words[..i])
  }

  lemma NextWord(text: string, words: seq<string>, i: nat)
    requires i < |words|
    ensures UpToWord(text, words, i + 1) == UpToWord(text, words, i) + (if i == 0 then words[0] else " " + words[i])
  {
    WordsSoFar(words, i);
    if i > 0 {
      Assoc(Implode(" ", words[..i]), " ", words[i]);
      Assoc(text, Implode(" ", words[..i]), " " + words[i]);
    }
  }

  lemma AllWords(text: string, line: string)
    ensures var words := Explode(" ", line); UpToWord(text, words, |words|) == text + line
  {
    var words := Explode(" ", line);
    assert words[..|words|] == words;
    ImplodeExplode(" ", line);
  }

  lemma WordsOfLine(line: string)
    requires BreakFree(line)
    ensures forall w :: w in Explode(" ", line) ==> BreakFree(w) && ' ' !in w
  {
    ExplodeFree(' ', line);
    forall w, i | w in Explode(" ", line) && 0 <= i < |w| ensures w[i] != '\r' && w[i] != '\n' {
      ExplodeSubset(" ", line, w, w[i]);
    }
  }

  lemma WordsSoFar(words: seq<string>, i: nat)
    requires i < |words|
    ensures Implode(" ", words[..i + 1]) == if i == 0 then words[0] else Implode(" ", words[..i]) + " " + words[i]
  {
    assert words[..i + 1] == words[..i] + [words[i]];
    if i > 0 { ImplodeSnoc(" ", words[..i], words[i]); }
  }

  /** `fixEOL` */
  method FixEOL(str: string, le: string) returns (r: string)
    requires IsLineEnding(le)
    ensures r == Replace("\n", le, Unix(str))
  {
    TwoStepUnix(str);
    UnixHasNoCR(str);
    r := Replace("\r", "\n", Replace("\r\n", "\n", str));
    if le != "\n" {
      r := Replace("\n", le, r);
    } else {
      ReplaceSelf(r);
    }
  }

  lemma {:induction false} ReplaceSelf(s: string)
    ensures Replace("\n", "\n", s) == s
  {
    if s != "" {
      CharPrefix('\n', s);
      ReplaceSelf(s[1..]);
      assert [s[0]] + s[1..] == s;
    }
  }

  /** `explode(LE, ...)` of the message after `fixEOL` and the removal of one
      trailing break gives its logical lines. */
  method SplitLines(message: string, le: string) returns (lines: seq<string>)
    requires IsLineEnding(le)
    ensures lines == LogicalLines(message)
  {
    var m := FixEOL(message, le);
    UnixHasNoCR(message);
    LastBreakUnderLE(le, Unix(message));
    if |m| >= |le| && m[|m| - |le|..] == le {
      m := m[..|m| - |le|];
    }
    LinesUnderLE(le, Chopped(message));
    lines := Explode(le, m);
  }

  lemma IsUndone(mode: Mode, le: string, length: int, rows: seq<Row>)
    requires IsLineEnding(le) && RowsOk(mode, length, rows)
    ensures mode.Plain? && le == "\n" ==> UndoPlain(Print(mode, le, rows)) == Meaning(rows)
    ensures mode.Quoted? ==> UndoQuoted(le, Print(mode, le, rows)) == Meaning(rows)
  {
    if mode.Quoted? {
      QuotedIsUndone(mode.utf8, le, length, rows);
    } else if le == "\n" {
      PlainIsUndone(length, rows);
    }
  }

  predicate AreWrappable(mode: Mode, length: int, lines: seq<string>) {
    forall i :: 0 <= i < |lines| ==> BreakFree(lines[i]) && CanWrap(mode, length, lines[i])
  }

  /** The text once the first `i` lines are taken in. */
  function UpToLine(lines: seq<string>, i: nat): string
    requires i <= |lines|
  {
    if i == 0 then "" else Implode("\n", lines[..i]) + "\n"
  }

  /** The loop over the lines. */
  method WrapLines(lines: seq<string>, length: int, mode: Mode, le: string) returns (r: string, ghost rows: seq<Row>)
    requires lines != [] && AreWrappable(mode, length, lines)
    ensures LineState(mode, le, length, r, rows, "", UpToLine(lines, |lines|))
  {
    r, rows := "", [];
    assert CanWrap(mode, length, lines[0]);
    for i := 0 to |lines|
      invariant LineState(mode, le, length, r, rows, "", UpToLine(lines, i))
      invariant rows != [] ==> rows[|rows| - 1].brk.LineEnd?
    {
      r, rows := WrapLine(mode, le, length, r, rows, lines[i], UpToLine(lines, i));
      NextLine(lines, i);
    }
  }

  lemma LinesAreWrappable(message: string, mode: Mode, length: int)
    requires forall l :: l in LogicalLines(message) ==> CanWrap(mode, length, l)
    ensures AreWrappable(mode, length, LogicalLines(message))
    ensures UpToLine(LogicalLines(message), |LogicalLines(message)|) == Chopped(message) + "\n"
  {
    var lines := LogicalLines(message);
    UnixHasNoCR(message);
    UnixLinesBreakFree(Chopped(message));
    ImplodeExplode("\n", Chopped(message));
    assert lines[..|lines|] == lines;
    forall i | 0 <= i < |lines| ensures BreakFree(lines[i]) &&
      CanWrap(mode, length, lines[i]) { assert lines[i] in lines; }
  }

  /** `wrapText` */
  method WrapText(message: string, length: int, mode: Mode, le: string) returns (r: string, ghost rows: seq<Row>)
    requires IsLineEnding(le)
    requires forall l :: l in LogicalLines(message) ==> CanWrap(mode, length, l)
    ensures r == Print(mode, le, rows) && Meaning(rows) == Chopped(message) + "\n"
    ensures RowsOk(mode, length, rows) && IsJoined(rows) && IsGreedy(mode, length, rows)
    ensures mode.Plain? && le == "\n" ==> UndoPlain(r) == Chopped(message) + "\n"
    ensures mode.Quoted? ==> UndoQuoted(le, r) == Chopped(message) + "\n"
  {
    var lines := SplitLines(message, le);
    LinesAreWrappable(message, mode, length);
    r, rows := WrapLines(lines, length, mode, le);
    assert Meaning(rows) + "" == Meaning(rows);
    IsUndone(mode, le, length, rows);
  }

  lemma NextLine(lines: seq<string>, i: nat)
    requires i < |lines|
    ensures UpToLine(lines, i) + (lines[i] + "\n") == UpToLine(lines, i + 1)
  {
    assert lines[..i + 1] == lines[..i] + [lines[i]];
    if i > 0 {
      ImplodeSnoc("\n", lines[..i], lines[i]);
      Assoc(Implode("\n", lines[..i]) + "\n", lines[i], "\n");
    }
  }
}
