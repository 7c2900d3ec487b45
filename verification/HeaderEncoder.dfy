/** Header encoding (`encodeHeader`): what a reader of headers gets back, of
    encoded text and of text that is left as it is. */
module HeaderEncoder {
  import opened Strings
  import opened Wrappers
  import opened QEncoding
  import opened CharBoundary
  import opened Wrapping
  import opened HeaderReader
  import Base64

  // ---- the encoder's choices -------------------------------------------------

  /** A token that can name a character set in an encoded word, with room left in
      75 characters for the code of the longest character. */
  predicate IsCharsetName(s: string) {
    |s| <= 60 && IsToken(s)
  }

  predicate IsUtf8Name(charSet: string) {
    ToLower(charSet) == "utf-8"
  }

  /** The name may be in upper or lower case. */
  lemma WhichNamesAreUtf8(charSet: string)
    ensures IsUtf8Name(charSet) <==>
      |charSet| == 5 && charSet[0] in "uU" && charSet[1] in "tT" && charSet[2] in "fF" && charSet[3] == '-' &&
        charSet[4] == '8'
  {
    if |charSet| == 5 {
      var low := ToLower(charSet);
      assert low == [low[0], low[1], low[2], low[3], low[4]];
    }
  }

  /** Each element is one character, and in UTF-8 a whole one. */
  predicate AreCharsOf(charSet: string, chars: seq<string>, str: string) {
    && Base64.AreChars(chars) && Concat(chars) == str
    && (IsUtf8Name(charSet) ==> forall i :: 0 <= i < |chars| ==> IsOneChar(chars[i]))
  }

  predicate IsOneChar(c: string) {
    StartsWithChar(c) && |c| == SizeByLead(c[0])
  }

  /** `[^\040\041\043-\133\135-\176]` */
  predicate InPhraseCount(c: char) {
    var n := c as int;
    !(n == 0x20 || n == 0x21 || 0x23 <= n <= 0x5B || 0x5D <= n <= 0x7E)
  }

  /** `[\000-\010\013\014\016-\037\177-\377]` */
  predicate InTextCount(c: char) {
    var n := c as int;
    n <= 8 || n == 11 || n == 12 || 14 <= n <= 31 || 127 <= n <= 255
  }

  /** How often the regular expression matches: once for each character that
      needs encoding; in a comment the brackets and quotes as well. */
  function MatchCount(position: Position, s: string): nat {
    if s == "" then 0
    else
      (match position
       case Phrase => if InPhraseCount(s[0]) then 1 else 0
       case Comment => (if s[0] in "()\"" then 1 else 0) + (if InTextCount(s[0]) then 1 else 0)
       case Text => if InTextCount(s[0]) then 1 else 0) + MatchCount(position, s[1..])
  }

  // ---- phrases without high bytes ----------------------------------------

  /** One character of `addcslashes($str, "\0..\37\177\\\"")`. */
  function SlashedChar(c: char): string {
    var n := c as int;
    if c == '\\' || c == '"' then ['\\', c]
    else if 7 <= n <= 13 then ['\\', "abtnvfr"[n - 7]]
    else if n <= 31 || n == 127 then ['\\', '0' + (n / 64) as char, '0' + (n / 8 % 8) as char, '0' + (n % 8) as char]
    else [c]
  }

  function Slashed(s: string): string {
    if s == "" then "" else SlashedChar(s[0]) + Slashed(s[1..])
  }

  /** `[A-Za-z0-9!#$%&'*+\/=?^_`{|}~ -]` */
  predicate IsAtomText(c: char) {
    IsAlnum(c) || c in "!#$%&'*+/=?^_`{|}~ -"
  }

  predicate IsControl(c: char) {
    c as int <= 31 || c as int == 127
  }

  predicate AreAtoms(s: string) {
    forall i :: 0 <= i < |s| ==> IsAtomText(s[i])
  }

  function PlainPhrase(s: string): string {
    if Slashed(s) == s && AreAtoms(s) then s
    else "\"" + Slashed(s) + "\""
  }

  /** A phrase is sent unquoted exactly when it has letters, digits, blanks and the
      marks of an atom alone. */
  lemma WhichAreQuoted(s: string)
    ensures PlainPhrase(s) == s <==>
      forall i :: 0 <= i < |s| ==>
        'A' <= s[i] <= 'Z' || 'a' <= s[i] <= 'z' || '0' <= s[i] <= '9' || s[i] in "!#$%&'*+/=?^_`{|}~ -"
    ensures PlainPhrase(s) != s ==> PlainPhrase(s) == "\"" + Slashed(s) + "\""
  {
    SlashedSize(s);
    if AreAtoms(s) { AtomsStay(s); }
  }

  lemma {:induction false} SlashedSize(s: string)
    ensures |Slashed(s)| >= |s|
  {
    if s != "" { SlashedSize(s[1..]); }
  }

  lemma UnquoteSlashed(c: char, rest: string)
    requires c as int < 128
    ensures !IsControl(c) ==> Unquoted(SlashedChar(c) + rest) == [c] + Unquoted(rest)
    ensures IsControl(c) ==> var u := Unquoted(SlashedChar(c) + rest); u != "" && u[0] != c
  {
    var s := SlashedChar(c) + rest;
    assert s[0] == SlashedChar(c)[0];
    if |SlashedChar(c)| == 1 {
      assert s[1..] == rest;
    } else {
      assert s[1] == SlashedChar(c)[1];
      if |SlashedChar(c)| == 2 { assert s[2..] == rest; }
      if 7 <= c as int <= 13 { assert s[1] in "abtnvfr" && s[1] as int >= 97; }
    }
  }

  /** The backslashes are undone exactly when the text has no control
      character: `addcslashes` writes those as letters or octal digits, which
      a reader of quoted strings does not undo. */
  lemma {:induction false} SlashesUndone(s: string)
    requires !HasHighByte(s)
    ensures Unquoted(Slashed(s)) == s <==> forall i :: 0 <= i < |s| ==> !IsControl(s[i])
  {
    if s != "" {
      assert forall i :: 0 <= i < |s[1..]| ==> s[1..][i] == s[i + 1];
      SlashesUndone(s[1..]);
      UnquoteSlashed(s[0], Slashed(s[1..]));
      var u := Unquoted(Slashed(s));
      if IsControl(s[0]) {
        assert u[0] != s[0];
      } else {
        assert u == [s[0]] + Unquoted(Slashed(s[1..]));
        assert u[1..] == Unquoted(Slashed(s[1..]));
        assert (forall i :: 0 <= i < |s| ==> !IsControl(s[i])) <==>
          (forall i :: 0 <= i < |s[1..]| ==> !IsControl(s[1..][i])) by {
          assert forall i :: 0 < i < |s| ==> s[i] == s[1..][i - 1];
        }
      }
    }
  }

  /** A phrase without high bytes is read back as it was, exactly when it has no
      control character and no encoded word among its atoms: text that looks
      like an encoded word is sent without quotes, and decoded. */
  lemma PlainPhraseReadsBack(s: string)
    requires !HasHighByte(s)
    ensures ReadPhrase(PlainPhrase(s)) == s <==>
      (forall i :: 0 <= i < |s| ==> !IsControl(s[i])) && !(AreAtoms(s) && HasEncodedWord(s))
  {
    if AreAtoms(s) {
      AtomsArePlain(s);
      AtomsStay(s);
      AtomsAreRead(s);
    } else {
      SlashesUndone(s);
      SlashedHasNoControls(s);
      QuotedIsRead(Slashed(s));
    }
  }

  lemma AtomsAreRead(s: string)
    requires forall i :: 0 <= i < |s| ==> s[i] != '"' && !IsControl(s[i])
    ensures ReadPhrase(s) == s <==> !HasEncodedWord(s)
  {
    UnfoldedLength(s);
    TextStands(s);
  }

  lemma QuotedIsRead(q: string)
    requires forall i :: 0 <= i < |q| ==> !IsControl(q[i])
    ensures ReadPhrase("\"" + q + "\"") == Unquoted(q)
  {
    var p := "\"" + q + "\"";
    InQuotes(q);
    UnfoldedLength(p);
    QuotesAreTaken(p);
  }

  lemma InQuotes(q: string)
    requires forall i :: 0 <= i < |q| ==> !IsControl(q[i])
    ensures var p := "\"" + q + "\""; BreakFree(p) && |p| >= 2 && p[0] == '"' && p[|p| - 1] == '"' && p[1..|p| - 1] == q
  {
    var p := "\"" + q + "\"";
    forall i | 0 <= i < |p| ensures p[i] != '\r' && p[i] != '\n' {
      if 0 < i < |p| - 1 { assert p[i] == q[i - 1]; }
    }
  }

  lemma QuotesAreTaken(p: string)
    requires Unfolded(p) == p && |p| >= 2 && p[0] == '"' && p[|p| - 1] == '"'
    ensures ReadPhrase(p) == Unquoted(p[1..|p| - 1])
  {
  }

  lemma {:induction false} SlashedHasNoControls(s: string)
    requires !HasHighByte(s)
    ensures forall i :: 0 <= i < |Slashed(s)| ==> !IsControl(Slashed(s)[i])
  {
    if s != "" {
      assert forall i :: 0 <= i < |s[1..]| ==> s[1..][i] == s[i + 1];
      SlashedHasNoControls(s[1..]);
      SlashedChars(s[0]);
    }
  }

  lemma SlashedChars(c: char)
    requires c as int < 128
    ensures forall i :: 0 <= i < |SlashedChar(c)| ==> !IsControl(SlashedChar(c)[i])
  {
    var n := c as int;
    if 7 <= n <= 13 { assert "abtnvfr"[n - 7] as int >= 97; }
  }

  lemma {:induction false} AtomsStay(s: string)
    requires AreAtoms(s)
    ensures Slashed(s) == s
  {
    if s != "" {
      AtomText(s[0]);
      AtomsStay(s[1..]);
      assert [s[0]] + s[1..] == s;
    }
  }

  lemma AtomsArePlain(s: string)
    requires AreAtoms(s)
    ensures forall i :: 0 <= i < |s| ==> s[i] != '"' && !IsControl(s[i])
  {
    forall i | 0 <= i < |s| ensures s[i] != '"' && !IsControl(s[i]) { AtomText(s[i]); }
  }

  lemma AtomText(c: char)
    requires IsAtomText(c)
    ensures c != '"' && !IsControl(c) && SlashedChar(c) == [c]
  {
  }

  // ---- from lines to the header ----------------------------------------------

  /** Encoded text for one word: printable, without blanks and `?`, short enough
      for the whole word to keep within 75 characters. */
  predicate IsWordText(charSet: string, line: string) {
    line != "" && IsClean(line) && |line| <= 68 - |charSet|
  }

  predicate AreWordTexts(charSet: string, lines: seq<string>) {
    forall i :: 0 <= i < |lines| ==> IsWordText(charSet, lines[i])
  }

  function EncodedWord(charSet: string, encoding: char, line: string): string {
    "=?" + charSet + "?" + [encoding] + "?" + line + "?="
  }

  function WordsOf(charSet: string, encoding: char, lines: seq<string>): (words: seq<string>)
    ensures |words| == |lines|
  {
    seq(|lines|, i requires 0 <= i < |lines| => EncodedWord(charSet, encoding, lines[i]))
  }

  /** The `preg_replace('/^(.*)$/m', ...)` over the lines of the text. */
  function MarkLines(charSet: string, encoding: char, encoded: string): string {
    Implode("\n", Indented(WordsOf(charSet, encoding, Explode("\n", encoded))))
  }

  function Indented(words: seq<string>): (r: seq<string>)
    ensures |r| == |words|
  {
    seq(|words|, i requires 0 <= i < |words| => " " + words[i])
  }

  lemma EncodedWordIsSolid(charSet: string, encoding: char, line: string)
    requires IsCharsetName(charSet) && IsWordText(charSet, line) && (encoding == 'Q' || encoding == 'B')
    ensures IsSolid(EncodedWord(charSet, encoding, line)) && |EncodedWord(charSet, encoding, line)| <= 75
  {
    assert forall i :: 0 <= i < |charSet| ==> 32 < charSet[i] as int < 127;
  }

  /** The fields of an encoded word are found at its question marks. */
  lemma FieldsOfWord(charSet: string, encoding: char, line: string)
    requires IsCharsetName(charSet) && IsWordText(charSet, line) && (encoding == 'Q' || encoding == 'B')
    ensures Explode("?", EncodedWord(charSet, encoding, line)) == ["=", charSet, [encoding], line, "="]
  {
    NoMarks(charSet, line);
    LastFields(encoding, line);
    var tail := [encoding] + "?" + line + "?=";
    ExplodeOnce("?", charSet, tail);
    ExplodeOnce("?", "=", charSet + "?" + tail);
    WordParts(charSet, [encoding], line);
  }

  lemma NoMarks(charSet: string, line: string)
    requires IsCharsetName(charSet) && IsClean(line)
    ensures '?' !in charSet && '?' !in line
  {
    assert forall i :: 0 <= i < |charSet| ==> charSet[i] != '?';
    assert forall i :: 0 <= i < |line| ==> line[i] != '?';
  }

  lemma WordParts(charSet: string, encoding: string, line: string)
    ensures "=?" + charSet + "?" + encoding + "?" + line + "?=" ==
      "=" + "?" + (charSet + "?" + (encoding + "?" + line + "?="))
  {
  }

  lemma LastFields(encoding: char, line: string)
    requires '?' !in line && encoding != '?'
    ensures Explode("?", [encoding] + "?" + line + "?=") == [[encoding], line, "="]
  {
    ExplodeAbsent("?", "=");
    ExplodeOnce("?", line, "=");
    ExplodeOnce("?", [encoding], line + "?" + "=");
    assert [encoding] + "?" + line + "?=" == [encoding] + "?" + (line + "?" + "=");
  }

  /** An encoded word made of atom text is a name that is read as another. */
  lemma WordReadAsAnother(charSet: string, line: string)
    requires IsCharsetName(charSet) && IsWordText(charSet, line) && AreAtoms(EncodedWord(charSet, 'Q', line))
    ensures var w := EncodedWord(charSet, 'Q', line); PlainPhrase(w) == w && ReadPhrase(w) == QDecode(line)
  {
    var w := EncodedWord(charSet, 'Q', line);
    AtomsStay(w);
    assert w[0] == '=';
    EncodedWordIsSolid(charSet, 'Q', line);
    SolidIsBreakFree(w);
    UnfoldedLength(w);
    WordIsRead(charSet, line);
  }

  lemma WordIsRead(charSet: string, line: string)
    requires IsCharsetName(charSet) && IsWordText(charSet, line)
    ensures ReadTokens(false, EncodedWord(charSet, 'Q', line)) == QDecode(line)
  {
    var w := EncodedWord(charSet, 'Q', line);
    FieldsOfWord(charSet, 'Q', line);
    EncodedWordIsSolid(charSet, 'Q', line);
    assert DecodeWord(charSet, w) == Some(QDecode(line));
    OneEncodedWord(false, charSet, w);
  }

  /** `=?us-ascii?Q?abc?=` is read as `abc`. */
  lemma PhraseReadAsAnother() returns (s: string)
    ensures s == "=?us-ascii?Q?abc?=" && PlainPhrase(s) == s && ReadPhrase(s) == "abc"
  {
    var charSet, line := PiecesAreAtoms();
    WordReadAsAnother(charSet, line);
    s := EncodedWord(charSet, 'Q', line);
  }

  lemma PiecesAreAtoms() returns (charSet: string, line: string)
    ensures IsCharsetName(charSet) && IsWordText(charSet, line) && AreAtoms(EncodedWord(charSet, 'Q', line))
    ensures EncodedWord(charSet, 'Q', line) == "=?us-ascii?Q?abc?=" && line == "abc" && QDecode(line) == "abc"
  {
    charSet, line := "us-ascii", "abc";
    LettersAreAtoms(charSet);
    LettersAreAtoms(line);
    ShortWordText(charSet, line);
    AtomsOfWord(charSet, line);
  }

  predicate AreLetters(s: string) {
    forall i :: 0 <= i < |s| ==> 'a' <= s[i] <= 'z' || s[i] == '-'
  }

  lemma LettersAreAtoms(s: string)
    requires AreLetters(s)
    ensures AreAtoms(s) && (0 < |s| <= 60 ==> IsCharsetName(s))
  {
  }

  lemma {:induction false} LettersDecode(s: string)
    requires AreLetters(s)
    ensures QDecode(s) == s
  {
    if s != "" {
      LettersDecode(s[1..]);
      assert [s[0]] + s[1..] == s;
    }
  }

  lemma ShortWordText(charSet: string, line: string)
    requires AreLetters(line) && 0 < |line| <= 68 - |charSet|
    ensures IsWordText(charSet, line) && QDecode(line) == line
  {
    LettersDecode(line);
  }

  lemma AtomsOfWord(charSet: string, line: string)
    requires AreAtoms(charSet) && AreAtoms(line)
    ensures AreAtoms(EncodedWord(charSet, 'Q', line))
  {
  }

  lemma {:induction false} ReplaceInImplode(c: char, le: string, lines: seq<string>)
    requires lines != [] && forall i :: 0 <= i < |lines| ==> c !in lines[i]
    ensures Replace([c], le, Implode([c], lines)) == Implode(le, lines)
  {
    ReplaceAbsent([c], le, lines[0]);
    if |lines| > 1 {
      var rest := Implode([c], lines[1..]);
      assert lines == [lines[0]] + lines[1..];
      ImplodeCons([c], lines[0], lines[1..]);
      ImplodeCons(le, lines[0], lines[1..]);
      ReplaceInImplode(c, le, lines[1..]);
      ReplaceCharAppend(c, le, lines[0] + [c], rest);
      ReplaceCharAppend(c, le, lines[0], [c]);
      ReplaceOneChar(c, le, c);
    }
  }

  lemma {:induction false} IndentedImplode(le: string, words: seq<string>)
    requires words != []
    ensures Implode(le, Indented(words)) == " " + Implode(le + " ", words)
    decreases |words|
  {
    var n := |words| - 1;
    var ind := Indented(words);
    if n > 0 {
      IndentedImplode(le, words[..n]);
      assert ind[..n] == Indented(words[..n]);
      assert " " + Implode(le + " ", words[..n]) + le + (" " + words[n]) ==
        " " + (Implode(le + " ", words[..n]) + (le + " ") + words[n]);
    }
  }

  lemma {:induction false} ImplodeEnds(sep: string, words: seq<string>)
    requires words != [] && AreSolid(words)
    ensures var h := Implode(sep, words);
      h != "" && h[0] == words[0][0] && h[|h| - 1] == words[|words| - 1][|words[|words| - 1]| - 1]
  {
    var n := |words| - 1;
    if n > 0 { ImplodeEnds(sep, words[..n]); }
  }

  /** The last steps of `encodeHeader`: one word a line, folded with the line
      ending and a space. */
  method FoldWords(encoded: string, charSet: string, encoding: char, le: string, ghost lines: seq<string>)
      returns (r: string)
    requires IsCharsetName(charSet) && (encoding == 'Q' || encoding == 'B')
    requires lines != [] && AreWordTexts(charSet, lines) && encoded == Implode("\n", lines)
    ensures r == Implode(le + " ", WordsOf(charSet, encoding, lines))
    ensures AreSolid(WordsOf(charSet, encoding, lines))
  {
    ghost var words := WordsOf(charSet, encoding, lines);
    assert AreSolid(words) by {
      forall i | 0 <= i < |words| ensures IsSolid(words[i]) { EncodedWordIsSolid(charSet, encoding, lines[i]); }
    }
    assert forall i :: 0 <= i < |lines| ==> IsWordText(charSet, lines[i]) && '\n' !in lines[i];
    ExplodeImplode('\n', lines);
    r := MarkLines(charSet, encoding, encoded);
    assert forall i :: 0 <= i < |words| ==> IsSolid(words[i]) && '\n' !in Indented(words)[i];
    ReplaceInImplode('\n', le, Indented(words));
    IndentedImplode(le, words);
    ImplodeEnds(le + " ", words);
    TrimHead(Implode(le + " ", words));
    r := Trim(Replace("\n", le, r));
  }

  // ---- reading it back ---------------------------------------------------------

  function DecodeLine(encoding: char, line: string): string {
    if encoding == 'Q' then QDecode(line) else Base64.Decode(line)
  }

  function DecodedLines(encoding: char, lines: seq<string>): (r: seq<string>)
    ensures |r| == |lines|
  {
    seq(|lines|, i requires 0 <= i < |lines| => DecodeLine(encoding, lines[i]))
  }

  lemma {:induction false} WordsDecode(charSet: string, encoding: char, lines: seq<string>)
    requires IsCharsetName(charSet) && AreWordTexts(charSet, lines) && (encoding == 'Q' || encoding == 'B')
    ensures DecodeWords(charSet, WordsOf(charSet, encoding, lines)) == Some(Concat(DecodedLines(encoding, lines)))
  {
    if lines != [] {
      var words := WordsOf(charSet, encoding, lines);
      LineIsDecoded(charSet, encoding, lines[0]);
      assert words[1..] == WordsOf(charSet, encoding, lines[1..]);
      assert DecodedLines(encoding, lines)[1..] == DecodedLines(encoding, lines[1..]);
      WordsDecode(charSet, encoding, lines[1..]);
    }
  }

  lemma LineIsDecoded(charSet: string, encoding: char, line: string)
    requires IsCharsetName(charSet) && IsWordText(charSet, line) && (encoding == 'Q' || encoding == 'B')
    ensures DecodeWord(charSet, EncodedWord(charSet, encoding, line)) == Some(DecodeLine(encoding, line))
  {
    FieldsOfWord(charSet, encoding, line);
    EncodedWordIsSolid(charSet, encoding, line);
  }

  /** What an encoded header promises: it is a sequence of encoded words of at
      most 75 characters, folded between words, whose texts join to `text`, which
      is what is read at the position; with `whole`, each word holds whole
      characters of its own. */
  ghost predicate IsEncodedHeader(h: string, position: Position, charSet: string, le: string, text: string,
      whole: bool) {
    var words := Tokens(h);
    && words != [] && h == Implode(le + " ", words)
    && DecodeHeader(charSet, h) == Some(text) && ReadAt(position, h) == Some(text)
    && forall i :: 0 <= i < |words| ==> WordOk(charSet, words[i], whole)
  }

  ghost predicate WordOk(charSet: string, w: string, whole: bool) {
    IsSolid(w) && |w| <= 75 && DecodeWord(charSet, w).Some? && (whole ==> IsUtf8(DecodeWord(charSet, w).value))
  }

  /** Every word names the character set and the encoding, and holds only what is
      allowed at the position. */
  ghost predicate AreWordsAt(h: string, position: Position, charSet: string, encoding: char) {
    forall i :: 0 <= i < |Tokens(h)| ==> IsWordAt(Tokens(h)[i], position, charSet, encoding)
  }

  predicate IsWordAt(w: string, position: Position, charSet: string, encoding: char) {
    var start := "=?" + charSet + "?" + [encoding] + "?";
    start <= w && |w| >= |start| + 2 && w[|w| - 2..] == "?=" && AreAllowed(position, w[|start|..|w| - 2])
  }

  lemma WordIsAt(line: string, position: Position, charSet: string, encoding: char)
    requires AreAllowed(position, line)
    ensures IsWordAt(EncodedWord(charSet, encoding, line), position, charSet, encoding)
  {
    var start, w := "=?" + charSet + "?" + [encoding] + "?", EncodedWord(charSet, encoding, line);
    assert w == start + line + "?=";
    assert w[|start|..|w| - 2] == line && w[|w| - 2..] == "?=";
  }

  /** What a reader takes from the text at a position. */
  function ReadAt(position: Position, h: string): Option<string> {
    match position
    case Phrase => Some(ReadPhrase(h))
    case Comment => ReadComment(h)
    case Text => Some(ReadText(h))
  }

  predicate AreAllowedLines(position: Position, lines: seq<string>) {
    forall i :: 0 <= i < |lines| ==> AreAllowed(position, lines[i])
  }

  lemma HeaderOfLines(h: string, position: Position, charSet: string, encoding: char, le: string, lines: seq<string>,
      text: string, whole: bool)
    requires IsCharsetName(charSet) && AreWordTexts(charSet, lines) && (encoding == 'Q' || encoding == 'B')
    requires IsLineEnding(le) && lines != [] && AreSolid(WordsOf(charSet, encoding, lines)) &&
      AreAllowedLines(position, lines)
    requires h == Implode(le + " ", WordsOf(charSet, encoding, lines))
    requires Concat(DecodedLines(encoding, lines)) == text
    requires whole ==> forall i :: 0 <= i < |lines| ==> IsUtf8(DecodeLine(encoding, lines[i]))
    ensures IsEncodedHeader(h, position, charSet, le, text, whole) && AreWordsAt(h, position, charSet, encoding)
  {
    var words := WordsOf(charSet, encoding, lines);
    TokensOfWords(le + " ", words);
    WordsDecode(charSet, encoding, lines);
    if position.Comment? {
      forall i | 0 <= i < |words| ensures '(' !in words[i] && ')' !in words[i] {
        WordHasNoBrackets(charSet, encoding, lines[i]);
      }
    }
    WordsAreRead(position, charSet, le, words);
    forall i | 0 <= i < |words| ensures WordOk(charSet, words[i], whole) {
      WordOfLine(charSet, encoding, lines[i], whole);
    }
    forall i | 0 <= i < |words| ensures IsWordAt(words[i], position, charSet, encoding) {
      WordIsAt(lines[i], position, charSet, encoding);
    }
  }

  lemma WordHasNoBrackets(charSet: string, encoding: char, line: string)
    requires IsCharsetName(charSet) && AreAllowed(Comment, line) && (encoding == 'Q' || encoding == 'B')
    ensures '(' !in EncodedWord(charSet, encoding, line) && ')' !in EncodedWord(charSet, encoding, line)
  {
    assert forall i :: 0 <= i < |charSet| ==> IsTokenChar(charSet[i]);
    assert forall i :: 0 <= i < |line| ==> IsAllowed(Comment, line[i]);
  }

  /** Words that start and end with an equals sign, as they are read when they are
      folded. */
  lemma WordsAreRead(position: Position, charSet: string, le: string, words: seq<string>)
    requires words != [] && AreSolid(words) && DecodeWords(charSet, words).Some? && IsLineEnding(le)
    requires forall i :: 0 <= i < |words| ==> words[i][0] == '=' && words[i][|words[i]| - 1] == '='
    requires position.Comment? ==> forall i :: 0 <= i < |words| ==> '(' !in words[i] && ')' !in words[i]
    ensures ReadAt(position, Implode(le + " ", words)) == DecodeWords(charSet, words)
  {
    var h, body := Implode(le + " ", words), Implode(" ", words);
    UnfoldWords(le, words, "");
    assert h + "" == h && body + "" == body;
    ReadEncodedWords(position.Comment?, charSet, " ", words);
    ImplodeEnds(" ", words);
    if position.Comment? {
      UnfoldWords(le, words, ")");
      NotInImplode('(', " ", words);
      NotInImplode(')', " ", words);
      NoBracketsClose(body);
      assert (body + ")")[..|body|] == body;
    }
  }

  lemma {:induction false} NotInImplode(c: char, sep: string, words: seq<string>)
    requires c !in sep && forall i :: 0 <= i < |words| ==> c !in words[i]
    ensures c !in Implode(sep, words)
  {
    if |words| > 1 { NotInImplode(c, sep, words[..|words| - 1]); }
  }

  lemma WordOfLine(charSet: string, encoding: char, line: string, whole: bool)
    requires IsCharsetName(charSet) && IsWordText(charSet, line) && (encoding == 'Q' || encoding == 'B')
    requires whole ==> IsUtf8(DecodeLine(encoding, line))
    ensures WordOk(charSet, EncodedWord(charSet, encoding, line), whole)
  {
    FieldsOfWord(charSet, encoding, line);
    EncodedWordIsSolid(charSet, encoding, line);
  }

  // ---- the Q branch --------------------------------------------------------------

  predicate AreFreeOfCR(lines: seq<string>) {
    forall i :: 0 <= i < |lines| ==> '\r' !in lines[i]
  }

  lemma {:induction false} ReplaceSoftBreaks(lines: seq<string>)
    requires lines != [] && AreFreeOfCR(lines)
    ensures Replace("=" + CRLF, "\n", Implode("=" + CRLF, lines)) == Implode("\n", lines)
  {
    if |lines| == 1 {
      ReplaceFirst(lines[0], "");
      assert lines[0] + "" == lines[0];
    } else {
      assert lines == [lines[0]] + lines[1..];
      ImplodeCons("=" + CRLF, lines[0], lines[1..]);
      ImplodeCons("\n", lines[0], lines[1..]);
      ReplaceSoftBreaks(lines[1..]);
      ReplaceOneBreak(lines[0], Implode("=" + CRLF, lines[1..]));
      Assoc(lines[0], "\n", Implode("\n", lines[1..]));
    }
  }

  lemma ReplaceOneBreak(line: string, rest: string)
    requires '\r' !in line
    ensures Replace("=" + CRLF, "\n", line + ("=" + CRLF) + rest) == line + ("\n" + Replace("=" + CRLF, "\n", rest))
  {
    var s := "=" + CRLF + rest;
    Assoc(line, "=" + CRLF, rest);
    ReplaceFirst(line, s);
    assert "=" + CRLF <= s && s[3..] == rest;
  }

  lemma {:induction false} ReplaceFirst(line: string, rest: string)
    requires '\r' !in line && (rest == "" || "=" + CRLF <= rest)
    ensures Replace("=" + CRLF, "\n", line + rest) == line + Replace("=" + CRLF, "\n", rest)
  {
    if line == "" {
      assert line + rest == rest;
    } else {
      var s := line + rest;
      assert s[1..] == line[1..] + rest && s[0] == line[0];
      assert |s| > 1 ==> s[1] != '\r' by {
        if |line| > 1 { assert s[1] == line[1]; }
      }
      assert ("=" + CRLF)[1] == '\r';
      ReplaceFirst(line[1..], rest);
      assert [line[0]] + line[1..] == line;
    }
  }

  lemma {:induction false} PartsAreAllowed(position: Position, parts: seq<string>)
    requires AreAllowed(position, Concat(parts))
    ensures AreAllowedLines(position, parts)
  {
    if parts != [] {
      var all := Concat(parts);
      assert forall k :: 0 <= k < |parts[0]| ==> all[k] == parts[0][k];
      assert forall k :: 0 <= k < |all| - |parts[0]| ==> Concat(parts[1..])[k] == all[|parts[0]| + k];
      PartsAreAllowed(position, parts[1..]);
      assert forall i :: 0 < i < |parts| ==> parts[i] == parts[1..][i - 1];
    }
  }

  lemma AllowedIsClean(position: Position, t: string)
    requires AreAllowed(position, t)
    ensures IsClean(t)
  {
    assert forall i :: 0 <= i < |t| ==> IsAllowed(position, t[i]);
  }

  lemma {:induction false} PiecesDecode(lines: seq<string>)
    requires forall i :: 0 <= i < |lines| ==> IsQText(lines[i])
    ensures Concat(DecodedLines('Q', lines)) == QDecode(Concat(lines))
  {
    if lines != [] {
      assert DecodedLines('Q', lines)[1..] == DecodedLines('Q', lines[1..]);
      PiecesDecode(lines[1..]);
      QDecodeAppend(lines[0], Concat(lines[1..]));
    }
  }

  /** What wrapping one long word gives: pieces fit for encoded words. */
  lemma WrappedPieces(position: Position, encoded: string, wrapped: string, rows: seq<Row>, charSet: string,
      le: string, utf8: bool)
    requires encoded != "" && AreAllowed(position, encoded) && |charSet| <= 60
    requires RowsOk(Quoted(utf8), 68 - |charSet|, rows) && IsJoined(rows)
    requires wrapped == Print(Quoted(utf8), le, rows) && Meaning(rows) == encoded + "\n"
    ensures Texts(rows) != [] && AreWordTexts(charSet, Texts(rows)) && Concat(Texts(rows)) == encoded
    ensures AreAllowedLines(position, Texts(rows))
    ensures Replace("=" + CRLF, "\n", Trim(wrapped)) == Implode("\n", Texts(rows))
  {
    AllowedIsClean(position, encoded);
    OneWordRows(utf8, le, 68 - |charSet|, rows, encoded);
    PiecesAreTexts(position, rows, charSet, utf8, encoded);
    SoftBreaksToLines(charSet, Texts(rows));
  }

  lemma PiecesAreTexts(position: Position, rows: seq<Row>, charSet: string, utf8: bool, encoded: string)
    requires |charSet| <= 60 && encoded != "" && AreAllowed(position, encoded) && Concat(Texts(rows)) == encoded
    requires RowsOk(Quoted(utf8), 68 - |charSet|, rows) && IsJoined(rows)
    requires forall i :: 0 <= i < |rows| - 1 ==> rows[i].brk.InWord?
    ensures AreWordTexts(charSet, Texts(rows)) && AreAllowedLines(position, Texts(rows))
  {
    var lines := Texts(rows);
    PartsAreAllowed(position, lines);
    forall i | 0 <= i < |lines| ensures IsWordText(charSet, lines[i]) {
      assert RowOk(Quoted(utf8), 68 - |charSet|, rows[i]);
      if i > 0 { assert rows[i - 1].brk.InWord?; }
      if |rows| == 1 { assert lines[1..] == []; }
      AllowedIsClean(position, lines[i]);
    }
  }

  lemma SoftBreaksToLines(charSet: string, lines: seq<string>)
    requires lines != [] && AreWordTexts(charSet, lines)
    ensures Replace("=" + CRLF, "\n", Trim(Implode("=" + CRLF, lines) + CRLF)) == Implode("\n", lines)
  {
    forall i | 0 <= i < |lines| ensures '\r' !in lines[i] && IsSolid(lines[i]) { assert IsWordText(charSet, lines[i]); }
    ImplodeEnds("=" + CRLF, lines);
    TrimTail(Implode("=" + CRLF, lines), CRLF);
    ReplaceSoftBreaks(lines);
  }

  lemma OneLineMessage(e: string)
    requires e != "" && IsClean(e)
    ensures LogicalLines(e) == [e] && Chopped(e) == e && Explode(" ", e) == [e]
  {
    assert BreakFree(e) && forall i :: 0 <= i < |e| ==> e[i] != ' ' && e[i] != '\n';
    UnixOfBreakFree(e);
    ExplodeAbsent("\n", e);
    ExplodeAbsent(" ", e);
  }

  method QLines(str: string, position: Position, charSet: string, le: string)
      returns (encoded: string, ghost lines: seq<string>)
    requires IsBytes(str) && WithoutBreaks(str) != "" && IsCharsetName(charSet) && IsLineEnding(le)
    requires IsUtf8Name(charSet) ==> IsUtf8(str)
    ensures lines != [] && AreWordTexts(charSet, lines) && AreAllowedLines(position, lines) &&
      encoded == Implode("\n", lines)
    ensures Concat(DecodedLines('Q', lines)) == WithoutBreaks(str)
    ensures IsUtf8Name(charSet) ==> forall i :: 0 <= i < |lines| ==> IsUtf8(DecodeLine('Q', lines[i]))
  {
    var maxLen := 75 - 7 - |charSet|;
    var utf8 := IsUtf8Name(charSet);
    encoded := EncodeQ(str, position);
    QRoundTrip(position, str);
    QEncodeIsClean(position, str);
    assert QDecode("") == "";
    OneLineMessage(encoded);
    if utf8 { EncodeKeepsChars(position, str); }
    var wrapped;
    ghost var rows;
    wrapped, rows := WrapText(encoded, maxLen, Quoted(utf8), le);
    lines := Texts(rows);
    WrappedPieces(position, encoded, wrapped, rows, charSet, le, utf8);
    PiecesAreWhole(utf8, charSet, rows);
    PiecesDecode(lines);
    encoded := Replace("=" + CRLF, "\n", Trim(wrapped));
  }

  lemma PiecesAreWhole(utf8: bool, charSet: string, rows: seq<Row>)
    requires RowsOk(Quoted(utf8), 68 - |charSet|, rows) && AreWordTexts(charSet, Texts(rows))
    ensures forall i :: 0 <= i < |rows| ==> IsQText(Texts(rows)[i])
    ensures utf8 ==> forall i :: 0 <= i < |rows| ==> IsUtf8(DecodeLine('Q', Texts(rows)[i]))
  {
    forall i | 0 <= i < |rows| ensures IsQText(Texts(rows)[i]) && (utf8 ==> IsUtf8(DecodeLine('Q', Texts(rows)[i]))) {
      assert RowOk(Quoted(utf8), 68 - |charSet|, rows[i]) && IsWordText(charSet, Texts(rows)[i]);
      if utf8 {
        QUtf8IsQText(rows[i].text);
        DecodeKeepsChars(rows[i].text);
      }
    }
  }

  // ---- the B branch --------------------------------------------------------------

  /** The pieces `chunk_split(s, n, ...)` makes. */
  function Chunks(s: string, n: nat): seq<string>
    requires n > 0
  {
    if |s| <= n then [s] else [s[..n]] + Chunks(s[n..], n)
  }

  /** `chunk_split(s, n, "\n")` */
  function ChunkSplit(s: string, n: nat): string
    requires n > 0
  {
    Implode("\n", Chunks(s, n)) + "\n"
  }

  /** Cutting base64 text at a multiple of four digits cuts the bytes at a
      multiple of three: each piece decodes on its own. */
  /** Base64 text is allowed at every position. */
  predicate AreBase64(lines: seq<string>) {
    forall i :: 0 <= i < |lines| ==> Base64.IsCode(lines[i])
  }

  lemma CodeIsAllowed(position: Position, t: string)
    requires Base64.IsCode(t)
    ensures AreAllowed(position, t)
  {
    forall i | 0 <= i < |t| ensures IsAllowed(position, t[i]) { CodeCharIsAllowed(position, t[i]); }
  }

  lemma CodeCharIsAllowed(position: Position, c: char)
    requires Base64.IsDigit(c) || c == '='
    ensures IsAllowed(position, c)
  {
  }

  lemma {:induction false} ChunksAreCode(t: string, n: nat)
    requires n > 0 && Base64.IsCode(t)
    ensures AreBase64(Chunks(t, n))
  {
    if |t| > n {
      ChunksAreCode(t[n..], n);
      FirstIsCode(t[..n], Chunks(t[n..], n));
    }
  }

  lemma FirstIsCode(line: string, rest: seq<string>)
    requires Base64.IsCode(line) && AreBase64(rest)
    ensures AreBase64([line] + rest)
  {
  }

  lemma {:induction false} ChunksDecode(charSet: string, str: string, n: nat)
    requires IsBytes(str) && str != "" && n > 0 && n % 4 == 0 && n <= 68 - |charSet| && |charSet| <= 60
    ensures AreWordTexts(charSet, Chunks(Base64.Encode(str), n))
    ensures Concat(DecodedLines('B', Chunks(Base64.Encode(str), n))) == str
    decreases |str|
  {
    var e := Base64.Encode(str);
    CodeIsWordText(charSet, str);
    if |e| <= n {
      Base64.RoundTrip(str);
      assert DecodedLines('B', [e])[1..] == [];
    } else {
      var bytes := n / 4 * 3;
      CutCode(str, n);
      var a, b := str[..bytes], str[bytes..];
      CodeIsWordText(charSet, a);
      Base64.RoundTrip(a);
      ChunksDecode(charSet, b, n);
      OneMoreLine(charSet, Base64.Encode(a), Chunks(e[n..], n));
    }
  }

  lemma CodeIsWordText(charSet: string, str: string)
    requires IsBytes(str) && str != ""
    ensures Base64.Encode(str) != "" &&
      (|Base64.Encode(str)| <= 68 - |charSet| ==> IsWordText(charSet, Base64.Encode(str)))
  {
    Base64.EncodeLength(str);
    Base64.EncodeIsClean(str);
  }

  /** A cut after whole groups of digits is a cut after whole groups of bytes. */
  lemma CutCode(str: string, n: nat)
    requires IsBytes(str) && n > 0 && n % 4 == 0 && |Base64.Encode(str)| > n
    ensures var e, bytes := Base64.Encode(str), n / 4 * 3;
      && 0 < bytes < |str| && e[..n] == Base64.Encode(str[..bytes]) && e[n..] == Base64.Encode(str[bytes..])
      && str[..bytes] + str[bytes..] == str && |Base64.Encode(str[..bytes])| == n
  {
    var bytes := n / 4 * 3;
    Base64.EncodeLength(str);
    ChunkSizes(|str|, n);
    var a, b := str[..bytes], str[bytes..];
    assert str == a + b;
    Base64.EncodeAppend(a, b);
    Base64.EncodeLength(a);
  }

  lemma OneMoreLine(charSet: string, line: string, rest: seq<string>)
    requires IsWordText(charSet, line) && AreWordTexts(charSet, rest)
    ensures AreWordTexts(charSet, [line] + rest)
    ensures Concat(DecodedLines('B', [line] + rest)) == Base64.Decode(line) + Concat(DecodedLines('B', rest))
  {
    var all, decoded := [line] + rest, DecodedLines('B', rest);
    assert DecodedLines('B', all) == [Base64.Decode(line)] + decoded;
    ConcatFirst(Base64.Decode(line), decoded);
    forall i | 0 <= i < |all| ensures IsWordText(charSet, all[i]) {
      if i > 0 { assert all[i] == rest[i - 1]; }
    }
  }

  lemma ConcatFirst(x: string, rest: seq<string>)
    ensures Concat([x] + rest) == x + Concat(rest)
  {
    assert ([x] + rest)[1..] == rest;
  }

  lemma ChunkSizes(bytes: nat, n: nat)
    requires bytes > 0 && n > 0 && n % 4 == 0
    ensures var part := n / 4 * 3;
      && part % 3 == 0 && 0 < part && (part + 2) / 3 * 4 == n && (bytes + 2) / 3 * 4 > 0
      && ((bytes + 2) / 3 * 4 > n ==> part < bytes)
  {
  }

  method BLines(str: string, charSet: string, chars: seq<string>, mbAvailable: bool)
      returns (encoded: string, ghost lines: seq<string>)
    requires IsBytes(str) && str != "" && IsCharsetName(charSet) && AreCharsOf(charSet, chars, str)
    ensures lines != [] && AreWordTexts(charSet, lines) && AreBase64(lines) && encoded == Implode("\n", lines)
    ensures Concat(DecodedLines('B', lines)) == str
    ensures mbAvailable && IsUtf8Name(charSet) ==> forall i :: 0 <= i < |lines| ==> IsUtf8(DecodeLine('B', lines[i]))
  {
    var maxLen := 75 - 7 - |charSet|;
    Base64.CharsSize(chars);
    if mbAvailable && |str| > |chars| {
      ghost var parts;
      Base64.EightIsEnough(chars, 68 - |charSet|);
      encoded, lines, parts := Base64.Base64EncodeWrapMB(chars, charSet, "\n");
      PartsDecode(charSet, chars, lines, parts);
    } else {
      encoded := Base64.Encode(str);
      maxLen := maxLen - maxLen % 4;
      ChunksDecode(charSet, str, maxLen);
      Base64.EncodeIsClean(str);
      ChunksAreCode(encoded, maxLen);
      lines := Chunks(encoded, maxLen);
      assert forall i :: 0 <= i < |lines| ==> IsWordText(charSet, lines[i]) && IsSolid(lines[i]);
      ImplodeEnds("\n", lines);
      TrimTail(Implode("\n", lines), "\n");
      encoded := Trim(ChunkSplit(encoded, maxLen));
      if mbAvailable && IsUtf8Name(charSet) { AsciiLines(charSet, chars, str, lines); }
    }
  }

  lemma PartsDecode(charSet: string, chars: seq<string>, lines: seq<string>, parts: seq<seq<string>>)
    requires IsCharsetName(charSet) && AreCharsOf(charSet, chars, Concat(chars))
    requires Base64.AreLinesOf(lines, parts, 68 - |charSet|) && Base64.Flatten(parts) == chars
    ensures AreWordTexts(charSet, lines) && AreBase64(lines) && Concat(DecodedLines('B', lines)) == Concat(chars)
    ensures IsUtf8Name(charSet) ==> forall i :: 0 <= i < |lines| ==> IsUtf8(DecodeLine('B', lines[i]))
  {
    Base64.LinesDecode(lines, parts, 68 - |charSet|);
    assert DecodedLines('B', lines) == Base64.DecodedLines(lines);
    forall i | 0 <= i < |lines|
      ensures IsWordText(charSet, lines[i]) && Base64.IsCode(lines[i]) &&
        (IsUtf8Name(charSet) ==> IsUtf8(DecodeLine('B', lines[i])))
    {
      assert Base64.IsLineOf(lines[i], parts[i], 68 - |charSet|);
      PartsAreChars(parts, i);
      Base64.CharsSize(parts[i]);
      Base64.EncodeIsClean(Concat(parts[i]));
      Base64.EncodeLength(Concat(parts[i]));
      Base64.RoundTrip(Concat(parts[i]));
      if IsUtf8Name(charSet) { CharsAreUtf8(parts[i]); }
    }
  }

  /** The characters of one part are among the characters of the text. */
  lemma {:induction false} PartsAreChars(parts: seq<seq<string>>, i: nat)
    requires i < |parts|
    ensures forall j :: 0 <= j < |parts[i]| ==> parts[i][j] in Base64.Flatten(parts)
    decreases |parts|
  {
    var n := |parts| - 1;
    if i < n { PartsAreChars(parts[..n], i); }
  }

  lemma {:induction false} CharsAreUtf8(chars: seq<string>)
    requires forall i :: 0 <= i < |chars| ==> IsOneChar(chars[i])
    ensures IsUtf8(Concat(chars))
  {
    if chars != [] {
      CharsAreUtf8(chars[1..]);
      var all := Concat(chars);
      assert all[|chars[0]|..] == Concat(chars[1..]);
    }
  }

  /** Without multi-byte characters every byte is a character. */
  lemma AsciiLines(charSet: string, chars: seq<string>, str: string, lines: seq<string>)
    requires IsUtf8Name(charSet) && AreCharsOf(charSet, chars, str) && |str| <= |chars|
    requires Concat(DecodedLines('B', lines)) == str
    ensures forall i :: 0 <= i < |lines| ==> IsUtf8(DecodeLine('B', lines[i]))
  {
    SingleBytes(chars);
    var ds := DecodedLines('B', lines);
    forall i | 0 <= i < |lines| ensures IsUtf8(DecodeLine('B', lines[i])) {
      PartOfConcat(ds, i);
      AsciiIsUtf8(ds[i]);
    }
  }

  predicate IsAscii(s: string) {
    forall k :: 0 <= k < |s| ==> s[k] as int < 128
  }

  lemma {:induction false} SingleBytes(chars: seq<string>)
    requires Base64.AreChars(chars) && (forall i :: 0 <= i < |chars| ==> IsOneChar(chars[i])) &&
      |Concat(chars)| <= |chars|
    ensures IsAscii(Concat(chars))
  {
    if chars != [] {
      Base64.CharsSize(chars[1..]);
      SingleBytes(chars[1..]);
    }
  }

  lemma {:induction false} PartOfConcat(ds: seq<string>, i: nat)
    requires i < |ds| && IsAscii(Concat(ds))
    ensures IsAscii(ds[i])
  {
    var all := Concat(ds);
    assert forall k :: 0 <= k < |ds[0]| ==> all[k] == ds[0][k];
    if i > 0 {
      assert forall k :: 0 <= k < |Concat(ds[1..])| ==> Concat(ds[1..])[k] == all[|ds[0]| + k];
      PartOfConcat(ds[1..], i - 1);
    }
  }

  lemma {:induction false} AsciiIsUtf8(s: string)
    requires IsAscii(s)
    ensures IsUtf8(s)
  {
    if s != "" { AsciiIsUtf8(s[1..]); }
  }

  // ---- encodeHeader ------------------------------------------------------------

  /** A character that needs encoding is no line break, or has company. */
  lemma {:induction false} CountedIsKept(position: Position, s: string)
    requires if position.Phrase? then HasHighByte(s) else MatchCount(position, s) > 0
    ensures WithoutBreaks(s) != ""
  {
    if s[0] == '\r' || s[0] == '\n' {
      if position.Phrase? {
        var i :| 0 <= i < |s| && s[i] as int >= 128;
        assert s[1..][i - 1] as int >= 128;
      }
      CountedIsKept(position, s[1..]);
    }
  }

  /** B when more than a third of the bytes need encoding. */
  predicate PrefersB(position: Position, str: string) {
    MatchCount(position, str) * 3 > |str|
  }

  /** When text that is not encoded is read as itself. */
  predicate StandsForItself(position: Position, s: string) {
    match position
    case Phrase => (forall i :: 0 <= i < |s| ==> !IsControl(s[i])) && !(AreAtoms(s) && HasEncodedWord(s))
    case Comment => BreakFree(s) && '\\' !in s && !HasEncodedWord(s)
    case Text => BreakFree(s) && !HasEncodedWord(s)
  }

  /** No character of the text needs encoding. */
  predicate IsLeft(position: Position, s: string) {
    if position.Phrase? then !HasHighByte(s) else MatchCount(position, s) == 0
  }

  /** A byte that may stand in a header as it is: a tab, a line break, or printable
      ASCII; in a comment no bracket or quote. */
  predicate IsPlainByte(position: Position, c: char) {
    var n := c as int;
    (n == 9 || n == 10 || n == 13 || 32 <= n <= 126) && (position.Comment? ==> c != '(' && c != ')' && c != '"')
  }

  /** What is left as it is: a phrase of bytes below 128; text and comments of
      tabs, line breaks and printable ASCII, comments without brackets or quotes. */
  lemma {:induction false} WhatIsLeft(position: Position, s: string)
    requires IsBytes(s)
    ensures position.Phrase? ==> (IsLeft(position, s) <==> forall i :: 0 <= i < |s| ==> s[i] as int < 128)
    ensures position.Text? ==> (IsLeft(position, s) <==>
      forall i :: 0 <= i < |s| ==> var n := s[i] as int; n == 9 || n == 10 || n == 13 || 32 <= n <= 126)
    ensures position.Comment? ==> (IsLeft(position, s) <==>
      forall i :: 0 <= i < |s| ==> var n := s[i] as int;
        (n == 9 || n == 10 || n == 13 || 32 <= n <= 126) && s[i] != '(' && s[i] != ')' && s[i] != '"')
  {
    if !position.Phrase? { LeftIfPlain(position, s); }
  }

  lemma {:induction false} LeftIfPlain(position: Position, s: string)
    requires IsBytes(s) && !position.Phrase?
    ensures IsLeft(position, s) <==> forall i :: 0 <= i < |s| ==> IsPlainByte(position, s[i])
  {
    if s != "" {
      assert IsBytes(s[1..]);
      LeftIfPlain(position, s[1..]);
      assert forall i :: 0 < i < |s| ==> s[i] == s[1..][i - 1];
    }
  }

  predicate IsHeaderText(h: string) {
    forall i :: 0 <= i < |h| ==> IsPlainByte(Text, h[i])
  }

  lemma LeftIsHeaderText(position: Position, s: string)
    requires IsBytes(s) && IsLeft(position, s)
    ensures IsHeaderText(if position.Phrase? then PlainPhrase(s) else s)
  {
    WhatIsLeft(position, s);
    if position.Phrase? {
      SlashedHasNoControls(s);
      if AreAtoms(s) { AtomsArePlain(s); }
      assert forall i :: 0 <= i < |s| ==> s[i] as int <= 127;
      SlashedIsAscii(s);
    }
  }

  lemma {:induction false} SlashedIsAscii(s: string)
    requires !HasHighByte(s)
    ensures forall i :: 0 <= i < |Slashed(s)| ==> Slashed(s)[i] as int <= 127
  {
    if s != "" {
      assert forall i :: 0 <= i < |s[1..]| ==> s[1..][i] == s[i + 1];
      SlashedIsAscii(s[1..]);
      SlashedCharIsAscii(s[0]);
    }
  }

  lemma SlashedCharIsAscii(c: char)
    requires c as int < 128
    ensures forall i :: 0 <= i < |SlashedChar(c)| ==> SlashedChar(c)[i] as int <= 127
  {
    var n := c as int;
    if 7 <= n <= 13 { assert "abtnvfr"[n - 7] as int <= 127; }
  }

  lemma {:induction false} WordsAreHeaderText(le: string, words: seq<string>)
    requires AreSolid(words) && IsLineEnding(le)
    ensures IsHeaderText(Implode(le + " ", words))
  {
    if words != [] {
      var n := |words| - 1;
      if n > 0 { WordsAreHeaderText(le, words[..n]); }
      SolidIsHeaderText(words[n]);
    }
  }

  lemma SolidIsHeaderText(w: string)
    requires IsSolid(w)
    ensures IsHeaderText(w)
  {
  }

  lemma EncodedIsHeaderText(h: string, position: Position, charSet: string, le: string, text: string, whole: bool)
    requires IsEncodedHeader(h, position, charSet, le, text, whole) && IsLineEnding(le)
    ensures IsHeaderText(h)
  {
    var words := Tokens(h);
    assert forall i :: 0 <= i < |words| ==> WordOk(charSet, words[i], whole);
    WordsAreHeaderText(le, words);
  }

  lemma LeftText(position: Position, s: string)
    requires IsLeft(position, s)
    ensures ReadAt(position, if position.Phrase? then PlainPhrase(s) else s) == Some(s) <==>
      StandsForItself(position, s)
  {
    match position
    case Phrase => PlainPhraseReadsBack(s);
    case Comment =>
      CommentStands(s);
      BracketsCount(s);
      if '\\' !in s { NoBracketsClose(s); }
    case Text => TextStands(s);
  }

  lemma {:induction false} BracketsCount(s: string)
    requires MatchCount(Comment, s) == 0
    ensures '(' !in s && ')' !in s
  {
    if s != "" { BracketsCount(s[1..]); }
  }

  /** A line break that no blank follows is left in the text, and ends the field:
      what comes after it is the next field. */
  lemma TextEndsAtBreak(a: string, b: string)
    requires AreUncounted(a) && AreUncounted(b) && BreakFree(a) && !HasEncodedWord(a) && b != "" && b[0] !in " \t"
    ensures IsLeft(Text, a + (CRLF + b)) && ReadAt(Text, a + (CRLF + b)) == Some(a)
  {
    assert AreUncounted(CRLF + b);
    NothingCounted(a + (CRLF + b));
    UnfoldPrefix(a, CRLF + b);
    assert BreakLength(CRLF + b) == 2 && (CRLF + b)[2] == b[0];
    assert a + "" == a;
    TextStands(a);
    UnfoldedLength(a);
  }

  predicate AreUncounted(s: string) {
    forall i :: 0 <= i < |s| ==> !InTextCount(s[i])
  }

  /** A text that is left as it is and brings in another field. */
  lemma TextWithAnotherField() returns (s: string)
    ensures s == "a\r\nBcc: x@y" && IsLeft(Text, s) && ReadAt(Text, s) == Some("a")
  {
    var a, b := TwoFields();
    ShortIsNoWord(a);
    TextEndsAtBreak(a, b);
    s := a + (CRLF + b);
  }

  lemma TwoFields() returns (a: string, b: string)
    ensures a == "a" && b != "" && b[0] !in " \t" && a + (CRLF + b) == "a\r\nBcc: x@y"
    ensures AreUncounted(a) && AreUncounted(b)
  {
    a, b := "a", "Bcc: x@y";
  }

  lemma {:induction false} NothingCounted(s: string)
    requires AreUncounted(s)
    ensures MatchCount(Text, s) == 0
  {
    if s != "" { NothingCounted(s[1..]); }
  }

  /** A comment that is left as it is, and quotes the bracket that closes it. */
  lemma CommentIsNotClosed(a: string) returns (s: string)
    requires IsLeft(Comment, a) && BreakFree(a) && '\\' !in a
    ensures s == a + "\\" && IsLeft(Comment, s) && ReadAt(Comment, s) == None
  {
    s := a + "\\";
    OneMoreUncounted(a);
    BracketsCount(a);
    UnfoldedLength(s + ")");
    Assoc(a, "\\", ")");
    NeverClosed(a);
  }

  lemma {:induction false} OneMoreUncounted(a: string)
    requires MatchCount(Comment, a) == 0
    ensures MatchCount(Comment, a + "\\") == 0
  {
    if a == "" {
      assert (a + "\\")[1..] == "";
    } else {
      assert (a + "\\")[1..] == a[1..] + "\\" && (a + "\\")[0] == a[0];
      OneMoreUncounted(a[1..]);
    }
  }

  lemma {:induction false} NeverClosed(a: string)
    requires '(' !in a && ')' !in a && '\\' !in a
    ensures ClosedAt(a + ("\\" + ")"), 1) == None
  {
    var s := a + ("\\" + ")");
    if a == "" {
      assert |s| == 2 && s[0] == '\\' && s[2..] == "";
    } else {
      assert s[0] == a[0] && a[0] in a && s[1..] == a[1..] + ("\\" + ")");
      NeverClosed(a[1..]);
    }
  }

  /** A phrase with a high byte has something to encode. */
  lemma {:induction false} HighBytesCount(s: string)
    requires HasHighByte(s)
    ensures MatchCount(Phrase, s) > 0
  {
    if s[0] as int < 128 {
      var i :| 0 <= i < |s| && s[i] as int >= 128;
      assert s[1..][i - 1] as int >= 128;
      HighBytesCount(s[1..]);
    }
  }

  /** A byte that speaks for encoding: in a phrase what is not printable, quotes
      and backslashes; elsewhere what may not stand as it is. */
  predicate IsFlagged(position: Position, c: char) {
    if position.Phrase? then c as int < 32 || c as int > 126 || c == '"' || c == '\\' else !IsPlainByte(position, c)
  }

  lemma WhatIsFlagged(c: char)
    ensures var n := c as int;
      && (IsFlagged(Phrase, c) <==> n < 32 || n > 126 || c == '"' || c == '\\')
      && (IsFlagged(Text, c) <==> !(n == 9 || n == 10 || n == 13 || 32 <= n <= 126))
      && (IsFlagged(Comment, c) <==> IsFlagged(Text, c) || c == '(' || c == ')' || c == '"')
  {
  }

  function Flagged(position: Position, s: string): set<nat> {
    set i: nat | i < |s| && IsFlagged(position, s[i])
  }

  /** The count is that of the flagged bytes. */
  lemma {:induction false} CountOfFlagged(position: Position, s: string)
    requires IsBytes(s)
    ensures MatchCount(position, s) == |Flagged(position, s)|
    ensures PrefersB(position, s) <==> |Flagged(position, s)| * 3 > |s|
  {
    if s == "" {
      assert Flagged(position, s) == {};
    } else {
      var n := |s| - 1;
      CountOfFlagged(position, s[..n]);
      CountAppend(position, s[..n], [s[n]]);
      assert s == s[..n] + [s[n]];
      FlaggedOnce(position, s[n]);
      FlaggedSnoc(position, s);
    }
  }

  lemma FlaggedSnoc(position: Position, s: string)
    requires s != ""
    ensures var n := |s| - 1;
      |Flagged(position, s)| == |Flagged(position, s[..n])| + (if IsFlagged(position, s[n]) then 1 else 0)
  {
    var n: nat := |s| - 1;
    assert Flagged(position, s) == Flagged(position, s[..n]) + (if IsFlagged(position, s[n]) then {n} else {});
    assert n !in Flagged(position, s[..n]);
  }

  lemma FlaggedOnce(position: Position, c: char)
    requires c as int < 256
    ensures MatchCount(position, [c]) == if IsFlagged(position, c) then 1 else 0
  {
    assert [c][1..] == "";
  }

  lemma {:induction false} CountAppend(position: Position, a: string, b: string)
    ensures MatchCount(position, a + b) == MatchCount(position, a) + MatchCount(position, b)
  {
    if a == "" {
      assert a + b == b;
    } else {
      assert (a + b)[0] == a[0] && (a + b)[1..] == a[1..] + b;
      CountAppend(position, a[1..], b);
    }
  }

  /** `encodeHeader`. Text that is left as it is reads back exactly when it stands
      for itself; encoded text always does, without its line breaks in the Q
      encoding and with them in the B encoding. */
  method EncodeHeader(str: string, position: Position, charSet: string, le: string, chars: seq<string>,
      mbAvailable: bool)
    returns (r: string)
    requires IsBytes(str) && IsCharsetName(charSet) && IsLineEnding(le) && AreCharsOf(charSet, chars, str)
    ensures forall i :: 0 <= i < |r| ==> r[i] == '\t' || r[i] == '\r' || r[i] == '\n' || 32 <= r[i] as int <= 126
    ensures IsLeft(position, str) ==> r == if position.Phrase? then PlainPhrase(str) else str
    ensures IsLeft(position, str) ==> (ReadAt(position, r) == Some(str) <==> StandsForItself(position, str))
    ensures !IsLeft(position, str) && PrefersB(position, str) ==>
      IsEncodedHeader(r, position, charSet, le, str, IsUtf8Name(charSet) && mbAvailable) &&
        AreWordsAt(r, position, charSet, 'B')
    ensures !IsLeft(position, str) && !PrefersB(position, str) ==>
      IsEncodedHeader(r, position, charSet, le, WithoutBreaks(str), IsUtf8Name(charSet)) &&
        AreWordsAt(r, position, charSet, 'Q')
  {
    if IsLeft(position, str) {
      LeftText(position, str);
      LeftIsHeaderText(position, str);
    }
    if position.Phrase? && !HasHighByte(str) {
      var encoded := Slashed(str);
      if str == encoded && AreAtoms(str) {
        return encoded;
      } else {
        return "\"" + encoded + "\"";
      }
    }
    if position.Phrase? { HighBytesCount(str); }
    var matchCount := MatchCount(position, str);
    if matchCount == 0 {
      return str;
    }
    CountedIsKept(position, str);
    if IsUtf8Name(charSet) { CharsAreUtf8(chars); }
    var encoded;
    ghost var lines;
    if matchCount * 3 > |str| {
      encoded, lines := BLines(str, charSet, chars, mbAvailable);
      forall i | 0 <= i < |lines| ensures AreAllowed(position, lines[i]) { CodeIsAllowed(position, lines[i]); }
      r := FoldWords(encoded, charSet, 'B', le, lines);
      HeaderOfLines(r, position, charSet, 'B', le, lines, str, IsUtf8Name(charSet) && mbAvailable);
      EncodedIsHeaderText(r, position, charSet, le, str, IsUtf8Name(charSet) && mbAvailable);
    } else {
      encoded, lines := QLines(str, position, charSet, le);
      r := FoldWords(encoded, charSet, 'Q', le, lines);
      HeaderOfLines(r, position, charSet, 'Q', le, lines, WithoutBreaks(str), IsUtf8Name(charSet));
      EncodedIsHeaderText(r, position, charSet, le, WithoutBreaks(str), IsUtf8Name(charSet));
    }
  }
}
