/** The "Q" encoding of header text (RFC 2047 section 4.2): the encoder by
    repeated whole-string replacement, and a decoder written from the RFC. */
module QEncoding {
  import opened Strings

  datatype Position = Text | Comment | Phrase

  predicate IsBytes(s: string) {
    forall i :: 0 <= i < |s| ==> s[i] as int < 256
  }

  const HEX: string := "0123456789ABCDEF"

  /** `sprintf('=%02X', ord(c))` for a byte. */
  function Escape(c: char): string
    requires c as int < 256
  {
    ['=', HEX[c as int / 16], HEX[c as int % 16]]
  }

  /** The first index of `c`, or the length when there is none. */
  function IndexOf(c: char, s: string): (i: nat)
    ensures i <= |s|
    ensures i < |s| ==> s[i] == c
    ensures forall j :: 0 <= j < i ==> s[j] != c
  {
    if s == "" then 0 else if s[0] == c then 0 else 1 + IndexOf(c, s[1..])
  }

  predicate IsAlnum(c: char) {
    'A' <= c <= 'Z' || 'a' <= c <= 'z' || '0' <= c <= '9'
  }

  /** The character class that is replaced, by position in the header. */
  predicate MustEscape(position: Position, c: char) {
    match position
    case Phrase => !IsAlnum(c) && c !in "!*+/ -"
    case Comment => InTextClass(c) || c in "()\""
    case Text => InTextClass(c)
  }

  /** `[\000-\011\013\014\016-\037\075\077\137\177-\377]` */
  predicate InTextClass(c: char) {
    var n := c as int;
    n <= 9 || n == 11 || n == 12 || 14 <= n <= 31 || c == '=' || c == '?' || c == '_' || 127 <= n <= 255
  }

  // ---- the one-pass encoding and the RFC's decoder -----------------------

  /** What becomes of one byte. */
  function EncodeChar(position: Position, c: char): string
    requires c as int < 256
  {
    if c == '\r' || c == '\n' then ""
    else if MustEscape(position, c) then Escape(c)
    else if c == ' ' then "_"
    else [c]
  }

  function QEncode(position: Position, s: string): string
    requires IsBytes(s)
  {
    if s == "" then "" else EncodeChar(position, s[0]) + QEncode(position, s[1..])
  }

  predicate IsUpperHex(c: char) {
    '0' <= c <= '9' || 'A' <= c <= 'F'
  }

  predicate IsHex(c: char) {
    IsUpperHex(c) || 'a' <= c <= 'f'
  }

  function HexValue(c: char): (n: nat)
    requires IsHex(c)
    ensures n < 16
  {
    if c <= '9' then c as int - '0' as int
    else if c <= 'F' then c as int - 'A' as int + 10
    else c as int - 'a' as int + 10
  }

  /** The byte an escape at the start of `t` stands for. */
  function EscapedValue(t: string): (n: nat)
    requires StartsWithEscape(t)
    ensures n < 256
  {
    16 * HexValue(t[1]) + HexValue(t[2])
  }

  predicate StartsWithEscape(t: string) {
    |t| >= 3 && t[0] == '=' && IsHex(t[1]) && IsHex(t[2])
  }

  /** RFC 2047 section 4.2: `_` is a space, `=XX` the byte XX, all else itself. */
  function QDecode(t: string): string
    decreases |t|
  {
    if t == "" then ""
    else if StartsWithEscape(t) then [EscapedValue(t) as char] + QDecode(t[3..])
    else if t[0] == '_' then " " + QDecode(t[1..])
    else [t[0]] + QDecode(t[1..])
  }

  /** Text in which every `=` starts a whole escape. */
  predicate IsQText(t: string)
    decreases |t|
  {
    t == "" ||
    (if t[0] == '=' then StartsWithEscape(t) && IsQText(t[3..]) else IsQText(t[1..]))
  }

  /** The text without its line break characters. */
  function WithoutBreaks(s: string): string {
    if s == "" then ""
    else if s[0] == '\r' || s[0] == '\n' then WithoutBreaks(s[1..])
    else [s[0]] + WithoutBreaks(s[1..])
  }

  // ---- the encoder as the mailer computes it -----------------------------

  /** `preg_match_all`: every character of the class, in order. */
  function Matches(position: Position, s: string): string {
    if s == "" then ""
    else (if MustEscape(position, s[0]) then [s[0]] else "") + Matches(position, s[1..])
  }

  /** `array_unique`: first occurrences, in order. */
  function Unique(s: string): (r: string)
    ensures forall c :: c in r <==> c in s
    ensures forall i, j :: 0 <= i < j < |r| ==> r[i] != r[j]
    ensures s != "" ==> r != "" && r[0] == s[0]
  {
    if s == "" then ""
    else
      var front := Unique(s[..|s| - 1]);
      assert forall c :: c in s <==> c in s[..|s| - 1] || c == s[|s| - 1];
      if s[|s| - 1] in front then front else front + [s[|s| - 1]]
  }

  /** The text with only the characters of `done` escaped so far. */
  ghost function Escaped(done: set<char>, s: string): string
    requires IsBytes(s)
  {
    if s == "" then ""
    else (if s[0] in done then Escape(s[0]) else [s[0]]) + Escaped(done, s[1..])
  }

  /** The order of replacement: an `=` is moved to the front, then each
      character is kept once. */
  function ReplaceOrder(matches: string): (todo: string)
    ensures forall c :: c in todo <==> c in matches
    ensures forall i, j :: 0 <= i < j < |todo| ==> todo[i] != todo[j]
    ensures '=' in todo ==> todo[0] == '='
  {
    var eqKey := IndexOf('=', matches);
    if eqKey == |matches| then Unique(matches)
    else
      assert matches == matches[..eqKey] + "=" + matches[eqKey + 1..];
      Unique("=" + (matches[..eqKey] + matches[eqKey + 1..]))
  }

  /** `encodeQ`. The result is what one pass over the text gives: no
      replacement touches the output of an earlier one. */
  method EncodeQ(str: string, position: Position) returns (encoded: string)
    requires IsBytes(str)
    ensures encoded == QEncode(position, str)
  {
    encoded := Replace("\n", "", Replace("\r", "", str));
    ghost var stripped := encoded;
    StripByReplacing(str);
    WithoutBreaksBytes(str);
    MatchesAreEscapable(position, encoded);
    EscapedNothing(stripped);
    var todo := ReplaceOrder(Matches(position, encoded));
    assert Chars(todo[..0]) == {};
    for i := 0 to |todo|
      invariant encoded == Escaped(Chars(todo[..i]), stripped)
    {
      var c := todo[i];
      assert c in todo;
      ReplaceOneMore(c, Chars(todo[..i]), position, stripped);
      encoded := Replace([c], Escape(c), encoded);
      CharsSnoc(todo, i);
    }
    assert todo[..|todo|] == todo;
    FinishSpaces(position, Chars(todo), str, stripped);
    encoded := Replace(" ", "_", encoded);
  }

  ghost function Chars(s: string): set<char> {
    set c | c in s
  }

  lemma CharsSnoc(s: string, i: nat)
    requires i < |s|
    ensures Chars(s[..i + 1]) == Chars(s[..i]) + {s[i]}
  {
    assert s[..i + 1] == s[..i] + [s[i]];
  }

  lemma {:induction false} StripByReplacing(s: string)
    ensures Replace("\n", "", Replace("\r", "", s)) == WithoutBreaks(s)
  {
    if s != "" {
      CharPrefix('\r', s);
      var rest := Replace("\r", "", s[1..]);
      StripByReplacing(s[1..]);
      if s[0] != '\r' {
        var all := [s[0]] + rest;
        CharPrefix('\n', all);
        assert all[1..] == rest;
      } else {
        assert "" + rest == rest;
      }
    }
  }

  lemma {:induction false} WithoutBreaksBytes(s: string)
    ensures IsBytes(s) ==> IsBytes(WithoutBreaks(s))
    ensures BreakFree(WithoutBreaks(s))
    ensures forall c :: c in WithoutBreaks(s) <==> c in s && c != '\r' && c != '\n'
    ensures BreakFree(s) ==> WithoutBreaks(s) == s
  {
    if s != "" {
      WithoutBreaksBytes(s[1..]);
      assert s[0] in s && forall c :: c in s <==> c == s[0] || c in s[1..];
      if BreakFree(s) {
        assert BreakFree(s[1..]);
        assert [s[0]] + s[1..] == s;
      }
    }
  }

  lemma {:induction false} MatchesAreEscapable(position: Position, s: string)
    ensures forall c :: c in Matches(position, s) <==> c in s && MustEscape(position, c)
  {
    if s != "" {
      MatchesAreEscapable(position, s[1..]);
      assert forall c :: c in s <==> c == s[0] || c in s[1..];
    }
  }

  lemma {:induction false} EscapedNothing(s: string)
    requires IsBytes(s)
    ensures Escaped({}, s) == s
  {
    if s != "" {
      EscapedNothing(s[1..]);
      assert [s[0]] + s[1..] == s;
    }
  }

  /** Replacing a further character of the class leaves the escapes already
      written alone, because it is neither `=` (that one goes first) nor a
      hexadecimal digit. */
  lemma {:induction false} ReplaceOneMore(c: char, done: set<char>, position: Position, s: string)
    requires IsBytes(s) && c as int < 256
    requires MustEscape(position, c) && c !in done
    requires c == '=' ==> done == {}
    ensures Replace([c], Escape(c), Escaped(done, s)) == Escaped(done + {c}, s)
  {
    if s != "" {
      assert s[0] in s;
      ReplaceOneMore(c, done, position, s[1..]);
      var head := if s[0] in done then Escape(s[0]) else [s[0]];
      ReplaceCharAppend(c, Escape(c), head, Escaped(done, s[1..]));
      if s[0] in done {
        assert !IsHex(c) || !MustEscape(position, c);
        HexDigitsAreHex(s[0]);
        ReplaceAbsent([c], Escape(c), head);
      } else {
        ReplaceOneChar(c, Escape(c), s[0]);
      }
    }
  }

  lemma HexDigitsAreHex(c: char)
    requires c as int < 256
    ensures StartsWithEscape(Escape(c)) && EscapedValue(Escape(c)) == c as int
  {
    HexDigit(c as int / 16);
    HexDigit(c as int % 16);
  }

  lemma HexDigit(n: nat)
    requires n < 16
    ensures IsHex(HEX[n]) && HexValue(HEX[n]) == n
  {
    assert n == 0 || n == 1 || n == 2 || n == 3 || n == 4 || n == 5 || n == 6 || n == 7
      || n == 8 || n == 9 || n == 10 || n == 11 || n == 12 || n == 13 || n == 14 || n == 15;
  }

  lemma {:induction false} FinishSpaces(position: Position, done: set<char>, s: string, stripped: string)
    requires IsBytes(s) && stripped == WithoutBreaks(s) && IsBytes(stripped)
    requires forall c :: c in stripped ==> (c in done <==> MustEscape(position, c))
    ensures Replace(" ", "_", Escaped(done, stripped)) == QEncode(position, s)
  {
    if s != "" {
      assert s[0] in s;
      WithoutBreaksBytes(s[1..]);
      var rest := WithoutBreaks(s[1..]);
      if s[0] == '\r' || s[0] == '\n' {
        FinishSpaces(position, done, s[1..], rest);
      } else {
        assert stripped[0] == s[0] && stripped[1..] == rest;
        assert stripped[0] in stripped && forall c :: c in rest ==> c in stripped;
        FinishSpaces(position, done, s[1..], rest);
        var head := if s[0] in done then Escape(s[0]) else [s[0]];
        ReplaceCharAppend(' ', "_", head, Escaped(done, rest));
        FinishOne(position, s[0]);
      }
    }
  }

  lemma FinishOne(position: Position, c: char)
    requires c as int < 256 && c != '\r' && c != '\n'
    ensures Replace(" ", "_", if MustEscape(position, c) then Escape(c) else [c]) == EncodeChar(position, c)
  {
    if MustEscape(position, c) {
      HexDigitsAreHex(c);
      ReplaceAbsent(" ", "_", Escape(c));
    } else {
      ReplaceOneChar(' ', "_", c);
    }
  }

  // ---- the round trip ----------------------------------------------------

  /** Decoding reverses encoding, up to the line breaks the encoder drops. */
  lemma {:induction false} QRoundTrip(position: Position, s: string)
    requires IsBytes(s)
    ensures QDecode(QEncode(position, s)) == WithoutBreaks(s)
    ensures IsQText(QEncode(position, s))
  {
    if s != "" {
      assert s[0] in s;
      QRoundTrip(position, s[1..]);
      EncodeCharDecodes(position, s[0]);
      QDecodeAppend(EncodeChar(position, s[0]), QEncode(position, s[1..]));
    }
  }

  lemma EncodeCharDecodes(position: Position, c: char)
    requires c as int < 256
    ensures IsQText(EncodeChar(position, c))
    ensures QDecode(EncodeChar(position, c)) == if c == '\r' || c == '\n' then "" else [c]
  {
    HexDigitsAreHex(c);
    var e := EncodeChar(position, c);
    if c == '\r' || c == '\n' {
    } else if MustEscape(position, c) {
      assert e[3..] == "";
    } else {
      assert e[1..] == "";
    }
  }

  /** Decoding goes through any cut that splits no escape. */
  lemma {:induction false} QDecodeAppend(a: string, b: string)
    requires IsQText(a)
    ensures QDecode(a + b) == QDecode(a) + QDecode(b)
    ensures IsQText(b) ==> IsQText(a + b)
    decreases |a|
  {
    if a == "" {
      assert a + b == b;
    } else {
      var n := if a[0] == '=' then 3 else 1;
      assert (a + b)[n..] == a[n..] + b;
      QDecodeAppend(a[n..], b);
    }
  }

  /** Printable, and neither a space nor the `?` that ends an encoded word. */
  predicate IsClean(t: string) {
    forall i :: 0 <= i < |t| ==> 32 < t[i] as int < 127 && t[i] != '?'
  }

  /** What section 5 of RFC 2047 lets an encoded word hold: in a comment no
      brackets or quotes (rule 2), in a phrase only letters, digits and a few
      marks (rule 3). */
  predicate IsAllowed(position: Position, c: char) {
    && 32 < c as int < 127 && c != '?'
    && (position.Comment? ==> c !in "()\"")
    && (position.Phrase? ==> IsAlnum(c) || c in "!*+-/=_")
  }

  predicate AreAllowed(position: Position, t: string) {
    forall i :: 0 <= i < |t| ==> IsAllowed(position, t[i])
  }

  lemma EncodeCharIsClean(position: Position, c: char)
    requires c as int < 256
    ensures AreAllowed(position, EncodeChar(position, c))
  {
    if MustEscape(position, c) {
      EscapeDigitsAreAlnum(c);
    } else {
      KeptIsAllowed(position, c);
    }
  }

  lemma KeptIsAllowed(position: Position, c: char)
    requires c as int < 256 && !MustEscape(position, c)
    ensures c == ' ' || c == '\r' || c == '\n' || IsAllowed(position, c)
  {
  }

  lemma EscapeDigitsAreAlnum(c: char)
    requires c as int < 256
    ensures var e := Escape(c); |e| == 3 && e[0] == '=' && IsAlnum(e[1]) && IsAlnum(e[2])
  {
    HexDigit(c as int / 16);
    HexDigit(c as int % 16);
  }

  /** Nothing in the encoded text would end an encoded word or need folding, or
      is not allowed at its position. */
  lemma {:induction false} QEncodeIsClean(position: Position, s: string)
    requires IsBytes(s)
    ensures AreAllowed(position, QEncode(position, s)) && IsClean(QEncode(position, s))
  {
    if s != "" {
      QEncodeIsClean(position, s[1..]);
      EncodeCharIsClean(position, s[0]);
    }
  }

  /** What becomes of each byte: line breaks are dropped, a space is `_`, what may
      stand at the position stays, and all else is `=` and the two digits of the byte. */
  lemma WhatIsEscaped(position: Position, c: char)
    requires c as int < 256
    ensures c == '\r' || c == '\n' ==> EncodeChar(position, c) == ""
    ensures c == ' ' ==> EncodeChar(position, c) == "_"
    ensures var stays := match position
        case Text => 33 <= c as int <= 126 && c != '=' && c != '?' && c != '_'
        case Comment => 33 <= c as int <= 126 && c !in "=?_()\""
        case Phrase => 'A' <= c <= 'Z' || 'a' <= c <= 'z' || '0' <= c <= '9' || c in "!*+/-";
      c !in "\r\n " ==>
        var e := EncodeChar(position, c);
        if stays then e == [c]
        else |e| == 3 && e[0] == '=' && e[1] in "0123456789ABCDEF" && e[2] in "0123456789ABCDEF" && QDecode(e) == [c]
  {
    EncodeCharDecodes(position, c);
    assert Escape(c)[1] in HEX && Escape(c)[2] in HEX;
    if c !in "\r\n " { SameClass(position, c); }
  }

  lemma SameClass(position: Position, c: char)
    requires c as int < 256 && c !in "\r\n "
    ensures !MustEscape(position, c) <==>
      match position
      case Text => 33 <= c as int <= 126 && c != '=' && c != '?' && c != '_'
      case Comment => 33 <= c as int <= 126 && c !in "=?_()\""
      case Phrase => 'A' <= c <= 'Z' || 'a' <= c <= 'z' || '0' <= c <= '9' || c in "!*+/-"
  {
  }
}
