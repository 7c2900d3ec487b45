/** A reader of header text: ordinary tokens, encoded words among them
    (sections 2, 4 and 6.2 of RFC 2047), quoted strings and quoted pairs. */
module HeaderReader {
  import opened Strings
  import opened Wrappers
  import opened QEncoding
  import Base64

  // ---- headers made of encoded words ------------------------------------------

  predicate IsBlank(c: char) {
    c == ' ' || c == '\t' || c == '\r' || c == '\n'
  }

  /** The length of the token at the start of `h`. */
  function TokenLength(h: string): (n: nat)
    ensures n <= |h|
    ensures h != "" && !IsBlank(h[0]) ==> n > 0
  {
    if h == "" || IsBlank(h[0]) then 0 else 1 + TokenLength(h[1..])
  }

  /** The tokens between linear white space. */
  function Tokens(h: string): seq<string>
    decreases |h|
  {
    if h == "" then []
    else if IsBlank(h[0]) then Tokens(h[1..])
    else [h[..TokenLength(h)]] + Tokens(h[TokenLength(h)..])
  }

  /** A token of section 2 of RFC 2047: printable, without the special characters. */
  predicate IsTokenChar(c: char) {
    32 < c as int < 127 && c !in "()<>@,;:\\\"/[]?.="
  }

  predicate IsToken(s: string) {
    s != "" && forall i :: 0 <= i < |s| ==> IsTokenChar(s[i])
  }

  /** `=?charset?encoding?encoded-text?=`, at most 75 characters long; the text is
      printable and not empty. */
  function DecodeWord(charSet: string, w: string): Option<string> {
    var f := Explode("?", w);
    if |w| > 75 || |f| != 5 || f[0] != "=" || f[4] != "=" || f[1] != charSet then None
    else if !IsToken(f[1]) || !IsSolid(f[3]) then None
    else if f[2] == "Q" || f[2] == "q" then Some(QDecode(f[3]))
    else if f[2] == "B" || f[2] == "b" then Some(Base64.Decode(f[3]))
    else None
  }

  /** White space between adjacent encoded words is dropped; their texts are
      joined. `None` when some token is not an encoded word. */
  function DecodeWords(charSet: string, words: seq<string>): Option<string> {
    if words == [] then Some("")
    else
      var first, rest := DecodeWord(charSet, words[0]), DecodeWords(charSet, words[1..]);
      if first.None? || rest.None? then None else Some(first.value + rest.value)
  }

  function DecodeHeader(charSet: string, h: string): Option<string> {
    DecodeWords(charSet, Tokens(h))
  }

  predicate IsSolid(w: string) {
    w != "" && forall i :: 0 <= i < |w| ==> 32 < w[i] as int < 127
  }

  predicate AreSolid(words: seq<string>) {
    forall i :: 0 <= i < |words| ==> IsSolid(words[i])
  }

  lemma {:induction false} TokenThenBlank(w: string, rest: string)
    requires IsSolid(w) || w == ""
    requires rest == "" || IsBlank(rest[0])
    ensures TokenLength(w + rest) == |w|
  {
    if w == "" {
      assert w + rest == rest;
    } else {
      assert (w + rest)[0] == w[0] && (w + rest)[1..] == w[1..] + rest;
      TokenThenBlank(w[1..], rest);
    }
  }

  lemma {:induction false} SkipBlanks(sep: string, rest: string)
    requires forall i :: 0 <= i < |sep| ==> IsBlank(sep[i])
    ensures Tokens(sep + rest) == Tokens(rest)
  {
    if sep == "" {
      assert sep + rest == rest;
    } else {
      assert (sep + rest)[0] == sep[0] && (sep + rest)[1..] == sep[1..] + rest;
      SkipBlanks(sep[1..], rest);
    }
  }

  /** Solid words with blanks between them are the tokens. */
  lemma {:induction false} TokensOfWords(sep: string, words: seq<string>)
    requires sep != "" && (forall i :: 0 <= i < |sep| ==> IsBlank(sep[i])) && AreSolid(words)
    ensures Tokens(Implode(sep, words)) == words
  {
    if words != [] {
      var w := words[0];
      if |words| == 1 {
        TokenThenBlank(w, "");
        assert w + "" == w && w[..|w|] == w && w[|w|..] == "";
      } else {
        var rest := Implode(sep, words[1..]);
        assert words == [w] + words[1..];
        ImplodeCons(sep, w, words[1..]);
        var h := w + (sep + rest);
        assert Implode(sep, words) == h;
        TokenThenBlank(w, sep + rest);
        assert h[..|w|] == w && h[|w|..] == sep + rest;
        SkipBlanks(sep, rest);
        TokensOfWords(sep, words[1..]);
      }
    }
  }

  // ---- encoded words among other tokens ---------------------------------------

  /** An encoded word of any character set. */
  function DecodeAnyWord(w: string): Option<string> {
    var f := Explode("?", w);
    if |f| == 5 then DecodeWord(f[1], w) else None
  }

  predicate IsEncodedWord(w: string) {
    DecodeAnyWord(w).Some?
  }

  function BlankLength(h: string): (n: nat)
    ensures n <= |h|
    ensures n < |h| ==> !IsBlank(h[n])
  {
    if h == "" || !IsBlank(h[0]) then 0 else 1 + BlankLength(h[1..])
  }

  predicate StartsWithWord(h: string) {
    IsEncodedWord(h[..TokenLength(h)])
  }

  /** Quoted pairs undone: a backslash at the end quotes what follows the token. */
  function Unslashed(t: string): string
    decreases |t|
  {
    if t == "" then ""
    else if t[0] != '\\' then [t[0]] + Unslashed(t[1..])
    else if |t| == 1 then ""
    else [t[1]] + Unslashed(t[2..])
  }

  /** What is left after an encoded word: the white space before another one is
      dropped. */
  function AfterWord(rest: string): (next: string)
    ensures |next| <= |rest|
  {
    var next := rest[BlankLength(rest)..];
    if StartsWithWord(next) then next else rest
  }

  /** What is shown for the text of a field: encoded words decoded, without the
      white space between two of them, and everything else as it stands, in a
      comment without its quoted pairs (section 6.1 of RFC 2047). */
  function ReadTokens(inComment: bool, h: string): string
    decreases |h|
  {
    if h == "" then ""
    else if IsBlank(h[0]) then [h[0]] + ReadTokens(inComment, h[1..])
    else
      var n := TokenLength(h);
      var rest := h[n..];
      if !IsEncodedWord(h[..n]) then (if inComment then Unslashed(h[..n]) else h[..n]) + ReadTokens(inComment, rest)
      else
        DecodeAnyWord(h[..n]).value + ReadTokens(inComment, AfterWord(rest))
  }

  predicate AnyIsWord(tokens: seq<string>) {
    exists i :: 0 <= i < |tokens| && IsEncodedWord(tokens[i])
  }

  predicate HasEncodedWord(h: string) {
    AnyIsWord(Tokens(h))
  }

  /** The contents of a quoted string (section 3.2.4 of RFC 5322). */
  function Unquoted(s: string): string
    decreases |s|
  {
    if s == "" then ""
    else if s[0] == '\\' && |s| > 1 then [s[1]] + Unquoted(s[2..])
    else [s[0]] + Unquoted(s[1..])
  }

  // ---- the fields of a header -----------------------------------------------------

  function BreakLength(h: string): (n: nat)
    ensures n <= |h|
    ensures n == 0 <==> h == "" || (h[0] != '\r' && h[0] != '\n')
  {
    if CRLF <= h then 2 else if h != "" && (h[0] == '\r' || h[0] == '\n') then 1 else 0
  }

  /** The body of the field that `h` is printed in: it ends at a line break that
      no blank follows, and other line breaks are taken out (section 2.2.3 of
      RFC 5322). */
  function Unfolded(h: string): string
    decreases |h|
  {
    var n := BreakLength(h);
    if h == "" then ""
    else if n == 0 then [h[0]] + Unfolded(h[1..])
    else if n < |h| && (h[n] == ' ' || h[n] == '\t') then Unfolded(h[n..])
    else ""
  }

  /** What is read of text that is printed as a field. */
  function ReadText(h: string): string {
    ReadTokens(false, Unfolded(h))
  }

  /** The display name of a phrase: a quoted string without its quotes, in which
      nothing is decoded (section 5 of RFC 2047), or the text of its atoms. */
  function ReadPhrase(h: string): string {
    var p := Unfolded(h);
    if |p| >= 2 && p[0] == '"' && p[|p| - 1] == '"' then Unquoted(p[1..|p| - 1]) else ReadTokens(false, p)
  }

  function Later(n: nat, at: Option<nat>): Option<nat> {
    if at.Some? then Some(n + at.value) else None
  }

  /** The place of the bracket that closes a comment in which `depth` brackets are
      open (section 3.2.2 of RFC 5322). */
  function ClosedAt(h: string, depth: nat): (at: Option<nat>)
    requires depth > 0
    ensures at.Some? ==> at.value < |h|
    decreases |h|
  {
    if h == "" then None
    else if h[0] == '\\' then (if |h| == 1 then None else Later(2, ClosedAt(h[2..], depth)))
    else if h[0] == '(' then Later(1, ClosedAt(h[1..], depth + 1))
    else if h[0] != ')' then Later(1, ClosedAt(h[1..], depth))
    else if depth == 1 then Some(0)
    else Later(1, ClosedAt(h[1..], depth - 1))
  }

  /** What is read of a comment that is printed between brackets; nothing when it
      is never closed. */
  function ReadComment(h: string): Option<string> {
    var body := Unfolded(h + ")");
    var end := ClosedAt(body, 1);
    if end.None? then None else Some(ReadTokens(true, body[..end.value]))
  }

  // ---- when text stands for itself ----------------------------------------------

  lemma {:induction false} FieldsLength(parts: seq<string>)
    requires |parts| == 5
    ensures |Implode("?", parts)| == |parts[0]| + |parts[1]| + |parts[2]| + |parts[3]| + |parts[4]| + 4
  {
    assert parts == parts[..4] + [parts[4]] && parts[..4] == parts[..3] + [parts[3]];
    assert parts[..3] == parts[..2] + [parts[2]] && parts[..2] == [parts[0]] + [parts[1]];
    ImplodeSnoc("?", parts[..4], parts[4]);
    ImplodeSnoc("?", parts[..3], parts[3]);
    ImplodeSnoc("?", parts[..2], parts[2]);
    ImplodeSnoc("?", [parts[0]], parts[1]);
  }

  lemma {:induction false} QDecodeLength(t: string)
    ensures |QDecode(t)| <= |t|
    decreases |t|
  {
    if t != "" { QDecodeLength(if StartsWithEscape(t) then t[3..] else t[1..]); }
  }

  lemma {:induction false} Base64DecodeLength(t: string)
    ensures |Base64.Decode(t)| <= |t|
    decreases |t|
  {
    if |t| >= 4 { Base64DecodeLength(t[4..]); }
  }

  /** An encoded word stands for less text than it takes. */
  lemma WordIsLonger(w: string)
    requires IsEncodedWord(w)
    ensures |DecodeAnyWord(w).value| < |w|
  {
    var f := Explode("?", w);
    ImplodeExplode("?", w);
    FieldsLength(f);
    QDecodeLength(f[3]);
    Base64DecodeLength(f[3]);
  }

  lemma TokensCons(h: string)
    requires h != "" && !IsBlank(h[0])
    ensures var n := TokenLength(h); HasEncodedWord(h) <==> IsEncodedWord(h[..n]) || HasEncodedWord(h[n..])
  {
    WordAmong(h[..TokenLength(h)], Tokens(h[TokenLength(h)..]));
  }

  lemma WordAmong(first: string, rest: seq<string>)
    ensures AnyIsWord([first] + rest) <==> IsEncodedWord(first) || AnyIsWord(rest)
  {
    var all := [first] + rest;
    if AnyIsWord(rest) {
      var i :| 0 <= i < |rest| && IsEncodedWord(rest[i]);
      assert all[i + 1] == rest[i];
    }
    assert all[0] == first;
  }

  lemma {:induction false} UnslashedLength(t: string)
    ensures |Unslashed(t)| <= |t| && ('\\' in t ==> |Unslashed(t)| < |t|)
    ensures '\\' !in t ==> Unslashed(t) == t
    decreases |t|
  {
    if t == "" {
    } else if t[0] != '\\' {
      UnslashedLength(t[1..]);
      HeadAndTail(t, 1);
      assert t[..1] == [t[0]];
    } else if |t| > 1 {
      UnslashedLength(t[2..]);
    }
  }

  /** Something that reading takes away. */
  predicate HasMarks(inComment: bool, h: string) {
    HasEncodedWord(h) || (inComment && '\\' in h)
  }

  /** Reading never adds text, and marks take some away. */
  predicate Shrinks(inComment: bool, h: string) {
    var r := ReadTokens(inComment, h);
    |r| <= |h| && (if HasMarks(inComment, h) then |r| < |h| else r == h)
  }

  lemma BlankShrinks(inComment: bool, h: string)
    requires h != "" && IsBlank(h[0]) && Shrinks(inComment, h[1..])
    ensures Shrinks(inComment, h)
  {
    assert Tokens(h) == Tokens(h[1..]);
    assert [h[0]] + h[1..] == h;
  }

  lemma WordShrinks(inComment: bool, h: string, rest: string)
    requires h != "" && !IsBlank(h[0]) && IsEncodedWord(h[..TokenLength(h)]) && rest == h[TokenLength(h)..]
    requires |ReadTokens(inComment, AfterWord(rest))| <= |rest|
    ensures Shrinks(inComment, h)
  {
    var w := h[..TokenLength(h)];
    TokensCons(h);
    WordIsLonger(w);
    HeadAndTail(h, TokenLength(h));
    assert ReadTokens(inComment, h) == DecodeAnyWord(w).value + ReadTokens(inComment, AfterWord(rest));
  }

  lemma TokenShrinks(inComment: bool, h: string)
    requires h != "" && !IsBlank(h[0]) && !IsEncodedWord(h[..TokenLength(h)]) && Shrinks(inComment, h[TokenLength(h)..])
    ensures Shrinks(inComment, h)
  {
    var first, rest := h[..TokenLength(h)], h[TokenLength(h)..];
    TokensCons(h);
    UnslashedLength(first);
    HeadAndTail(h, TokenLength(h));
    assert '\\' in h <==> '\\' in first || '\\' in rest;
  }

  lemma HeadAndTail(h: string, n: nat)
    requires n <= |h|
    ensures h[..n] + h[n..] == h && |h| == n + |h[n..]|
  {
  }

  lemma {:induction false} ReadTokensLength(inComment: bool, h: string)
    ensures Shrinks(inComment, h)
    decreases |h|
  {
    if h == "" {
    } else if IsBlank(h[0]) {
      ReadTokensLength(inComment, h[1..]);
      BlankShrinks(inComment, h);
    } else {
      var rest := h[TokenLength(h)..];
      ReadTokensLength(inComment, rest);
      if IsEncodedWord(h[..TokenLength(h)]) {
        ReadTokensLength(inComment, AfterWord(rest));
        WordShrinks(inComment, h, rest);
      } else {
        TokenShrinks(inComment, h);
      }
    }
  }

  /** A line break is taken out, or ends the field. */
  lemma {:induction false} UnfoldedLength(h: string)
    ensures |Unfolded(h)| <= |h|
    ensures if BreakFree(h) then Unfolded(h) == h else |Unfolded(h)| < |h|
    decreases |h|
  {
    if h != "" {
      if BreakLength(h) == 0 {
        UnfoldedLength(h[1..]);
        BreakAhead(h);
      } else if BreakLength(h) < |h| {
        UnfoldedLength(h[BreakLength(h)..]);
      }
    }
  }

  lemma BreakAhead(h: string)
    requires h != "" && h[0] != '\r' && h[0] != '\n'
    ensures BreakFree(h) <==> BreakFree(h[1..])
    ensures [h[0]] + h[1..] == h
  {
    assert forall i :: 0 < i < |h| ==> h[i] == h[1..][i - 1];
  }

  /** Text is read as it is exactly when it has no line break, which is taken out
      or ends the field, and no token of it is an encoded word. */
  lemma TextStands(h: string)
    ensures ReadText(h) == h <==> BreakFree(h) && !HasEncodedWord(h)
  {
    UnfoldedLength(h);
    ReadTokensLength(false, Unfolded(h));
  }

  /** A comment is read as it is exactly when it has no line break, no backslash
      and no encoded word, and the bracket after it is the one that closes it. */
  lemma CommentStands(h: string)
    ensures ReadComment(h) == Some(h) <==>
      BreakFree(h) && '\\' !in h && !HasEncodedWord(h) && ClosedAt(h + ")", 1) == Some(|h|)
  {
    var body := Unfolded(h + ")");
    UnfoldedLength(h + ")");
    BracketIsNoBreak(h);
    var end := ClosedAt(body, 1);
    if end.Some? {
      ReadTokensLength(true, body[..end.value]);
      if BreakFree(h) && end.value == |h| { assert body[..|h|] == h; }
    }
  }

  lemma BracketIsNoBreak(h: string)
    ensures BreakFree(h + ")") <==> BreakFree(h)
  {
    assert forall i :: 0 <= i < |h| ==> (h + ")")[i] == h[i];
  }

  /** An encoded word takes more than four characters. */
  lemma ShortIsNoWord(a: string)
    requires IsSolid(a) && |a| <= 4
    ensures !HasEncodedWord(a)
  {
    TokenThenBlank(a, "");
    assert a + "" == a && a[..|a|] == a && a[|a|..] == "";
    TokensCons(a);
    ImplodeExplode("?", a);
    if |Explode("?", a)| == 5 { FieldsLength(Explode("?", a)); }
  }

  /** Without brackets, and with nothing quoted at the end, a comment ends where
      it is closed. */
  lemma {:induction false} NoBracketsClose(h: string)
    requires '(' !in h && ')' !in h && (h != "" ==> h[|h| - 1] != '\\')
    ensures ClosedAt(h + ")", 1) == Some(|h|)
    decreases |h|
  {
    var all := h + ")";
    if h != "" {
      assert all[0] == h[0] && h[0] in h;
      if h[0] == '\\' {
        assert all[2..] == h[2..] + ")";
        NoBracketsClose(h[2..]);
      } else {
        assert all[1..] == h[1..] + ")";
        NoBracketsClose(h[1..]);
      }
    }
  }

  // ---- encoded words only -----------------------------------------------------------

  predicate AreBlanks(s: string) {
    forall i :: 0 <= i < |s| ==> IsBlank(s[i])
  }

  lemma {:induction false} BlanksEnd(sep: string, rest: string)
    requires AreBlanks(sep) && (rest != "" ==> !IsBlank(rest[0]))
    ensures BlankLength(sep + rest) == |sep|
  {
    if sep == "" {
      assert sep + rest == rest;
    } else {
      assert (sep + rest)[1..] == sep[1..] + rest && (sep + rest)[0] == sep[0];
      BlanksEnd(sep[1..], rest);
    }
  }

  lemma WordDecodes(charSet: string, w: string)
    requires DecodeWord(charSet, w).Some?
    ensures DecodeAnyWord(w) == DecodeWord(charSet, w)
  {
  }

  /** A header made of encoded words is shown as their texts, joined. */
  lemma {:induction false} ReadEncodedWords(inComment: bool, charSet: string, sep: string, words: seq<string>)
    requires sep != "" && AreBlanks(sep) && AreSolid(words) && DecodeWords(charSet, words).Some?
    ensures ReadTokens(inComment, Implode(sep, words)) == DecodeWords(charSet, words).value
  {
    if words != [] {
      var w := words[0];
      WordDecodes(charSet, w);
      if |words| == 1 {
        TokenThenBlank(w, "");
        assert w + "" == w && w[..|w|] == w && w[|w|..] == "";
        assert words[1..] == [];
      } else {
        var rest := Implode(sep, words[1..]);
        assert words == [w] + words[1..];
        ImplodeCons(sep, w, words[1..]);
        Assoc(w, sep, rest);
        ReadEncodedWords(inComment, charSet, sep, words[1..]);
        NextWordStarts(charSet, sep, words[1..]);
        ReadWordThen(inComment, w, sep, rest);
      }
    }
  }

  lemma OneEncodedWord(inComment: bool, charSet: string, w: string)
    requires IsSolid(w) && DecodeWord(charSet, w).Some?
    ensures ReadTokens(inComment, w) == DecodeWord(charSet, w).value
  {
    ReadEncodedWords(inComment, charSet, " ", [w]);
    assert [w][1..] == [] && DecodeWord(charSet, w).value + "" == DecodeWord(charSet, w).value;
  }

  lemma NextWordStarts(charSet: string, sep: string, words: seq<string>)
    requires words != [] && sep != "" && AreBlanks(sep) && AreSolid(words) && DecodeWords(charSet, words).Some?
    ensures var h := Implode(sep, words); h != "" && !IsBlank(h[0]) && StartsWithWord(h)
  {
    var w := words[0];
    WordDecodes(charSet, w);
    if |words| == 1 {
      TokenThenBlank(w, "");
      assert w + "" == w && w[..|w|] == w;
    } else {
      var rest := Implode(sep, words[1..]);
      assert words == [w] + words[1..];
      ImplodeCons(sep, w, words[1..]);
      Assoc(w, sep, rest);
      TokenThenBlank(w, sep + rest);
      assert (w + (sep + rest))[..|w|] == w;
    }
  }

  lemma ReadWordThen(inComment: bool, w: string, sep: string, rest: string)
    requires IsSolid(w) && IsEncodedWord(w) && sep != "" && AreBlanks(sep)
    requires rest != "" && !IsBlank(rest[0]) && StartsWithWord(rest)
    ensures ReadTokens(inComment, w + (sep + rest)) == DecodeAnyWord(w).value + ReadTokens(inComment, rest)
  {
    var h := w + (sep + rest);
    TokenThenBlank(w, sep + rest);
    assert h[..|w|] == w && h[|w|..] == sep + rest;
    BlanksEnd(sep, rest);
    assert (sep + rest)[|sep|..] == rest;
  }

  lemma {:induction false} UnfoldPrefix(a: string, b: string)
    requires BreakFree(a)
    ensures Unfolded(a + b) == a + Unfolded(b)
  {
    if a == "" {
      assert a + b == b;
    } else {
      assert (a + b)[0] == a[0] && (a + b)[1..] == a[1..] + b;
      UnfoldPrefix(a[1..], b);
      BreakAhead(a);
      Assoc([a[0]], a[1..], Unfolded(b));
    }
  }

  /** A line ending and a space are unfolded to the space. */
  lemma UnfoldBreak(le: LineEnding, rest: string)
    ensures Unfolded(le + " " + rest) == " " + Unfolded(rest)
  {
    var h := le + " " + rest;
    assert h[|le|..] == " " + rest && h[|le|] == ' ';
    assert BreakLength(h) == |le|;
    assert (" " + rest)[1..] == rest;
  }

  /** Folded words are unfolded to words with a space between them. */
  lemma {:induction false} UnfoldWords(le: LineEnding, words: seq<string>, tail: string)
    requires words != [] && AreSolid(words) && BreakFree(tail)
    ensures Unfolded(Implode(le + " ", words) + tail) == Implode(" ", words) + tail
  {
    var w := words[0];
    SolidIsBreakFree(w);
    if |words| == 1 {
      UnfoldPrefix(w, tail);
      UnfoldPrefix(tail, "");
      assert tail + "" == tail;
    } else {
      var rest := Implode(le + " ", words[1..]);
      assert words == [w] + words[1..];
      ImplodeCons(le + " ", w, words[1..]);
      ImplodeCons(" ", w, words[1..]);
      UnfoldWords(le, words[1..], tail);
      UnfoldAfter(le, w, rest, Implode(" ", words[1..]), tail);
    }
  }

  lemma UnfoldAfter(le: LineEnding, w: string, rest: string, plain: string, tail: string)
    requires BreakFree(w) && Unfolded(rest + tail) == plain + tail
    ensures Unfolded(w + (le + " ") + rest + tail) == w + " " + plain + tail
  {
    Assoc(w + (le + " "), rest, tail);
    Assoc(w, le + " ", rest + tail);
    UnfoldPrefix(w, le + " " + (rest + tail));
    UnfoldBreak(le, rest + tail);
    Assoc(" ", plain, tail);
    Assoc(w, " ", plain);
    Assoc(w, " " + plain, tail);
  }

  lemma SolidIsBreakFree(w: string)
    requires IsSolid(w)
    ensures BreakFree(w)
  {
  }
}
