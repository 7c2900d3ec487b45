/** Cutting Q-encoded UTF-8 text between characters (`utf8CharBoundary`). */
module CharBoundary {
  import opened Strings
  import opened QEncoding

  /** How many bytes the character that starts with byte `c` has, by its
      leading bits; 0 for a continuation byte. */
  function SizeByLead(c: char): (size: nat)
    ensures size <= 4
  {
    var n := c as int;
    if n < 128 then 1 else if n < 192 then 0 else if n < 224 then 2 else if n < 240 then 3 else 4
  }

  predicate IsContinuation(c: char) {
    128 <= c as int < 192
  }

  /** The text starts with one whole character: a lead byte and its
      continuation bytes. Every character of RFC 3629 has this form. */
  predicate StartsWithChar(s: string) {
    s != "" &&
    var size := SizeByLead(s[0]);
    0 < size <= |s| && forall i :: 1 <= i < size ==> IsContinuation(s[i])
  }

  /** A sequence of whole characters. */
  predicate IsUtf8(s: string)
    decreases |s|
  {
    s == "" || (StartsWithChar(s) && IsUtf8(s[SizeByLead(s[0])..]))
  }

  // ---- the same, seen through the Q encoding -----------------------------

  /** Position `i` holds a whole escape, as the encoder writes it. */
  predicate EscapeAt(t: string, i: nat) {
    i + 2 < |t| && t[i] == '=' && IsUpperHex(t[i + 1]) && IsUpperHex(t[i + 2])
  }

  /** `SizeByLead` read off the first hexadecimal digit of the byte. */
  function SizeByDigit(c: char): (size: nat)
    ensures size <= 4
  {
    if '0' <= c <= '7' then 1
    else if c == 'C' || c == 'D' then 2
    else if c == 'E' then 3
    else if c == 'F' then 4
    else 0
  }

  predicate ContinuationAt(t: string, i: nat) {
    EscapeAt(t, i) && SizeByDigit(t[i + 1]) == 0
  }

  /** The length of the first character of Q-encoded text: one for a literal,
      three for each escaped byte. */
  function QCharLen(t: string): (n: nat)
    ensures n <= 12
  {
    if t == "" then 0
    else if t[0] != '=' then 1
    else if EscapeAt(t, 0) then 3 * SizeByDigit(t[1])
    else 0
  }

  predicate StartsWithQChar(t: string) {
    var n := QCharLen(t);
    0 < n <= |t| &&
    (n > 3 ==> ContinuationAt(t, 3)) && (n > 6 ==> ContinuationAt(t, 6)) && (n > 9 ==> ContinuationAt(t, 9))
  }

  /** Q-encoded text made of whole characters. */
  predicate IsQUtf8(t: string)
    decreases |t|
  {
    t == "" || (StartsWithQChar(t) && IsQUtf8(t[QCharLen(t)..]))
  }

  /** Both sides of a cut at `k` are whole characters. */
  predicate CutsBetweenChars(t: string, k: nat) {
    k <= |t| && IsQUtf8(t[..k]) && IsQUtf8(t[k..])
  }

  // ---- what the text around a position tells -----------------------------

  /** Moving a question about position `k` past the first character. */
  lemma CutShift(t: string, k: nat)
    requires IsQUtf8(t) && t != ""
    requires QCharLen(t) <= k <= |t| && CutsBetweenChars(t[QCharLen(t)..], k - QCharLen(t))
    ensures CutsBetweenChars(t, k)
  {
    var n := QCharLen(t);
    assert t[n..][k - n..] == t[k..];
    assert t[..k][n..] == t[n..][..k - n];
    assert StartsWithQChar(t[..k]) && QCharLen(t[..k]) == n;
  }

  lemma CutAtStart(t: string)
    requires IsQUtf8(t)
    ensures CutsBetweenChars(t, 0)
  {
    assert t[..0] == "" && t[0..] == t;
  }

  lemma CutAtEnd(t: string)
    requires IsQUtf8(t)
    ensures CutsBetweenChars(t, |t|)
  {
    assert t[..|t|] == t && t[|t|..] == "";
  }

  /** An `=` is always the start of a whole escape. */
  lemma {:induction false} EqualsStartsEscape(t: string, q: nat)
    requires IsQUtf8(t) && q < |t| && t[q] == '='
    ensures EscapeAt(t, q) && t[q + 1] != '=' && t[q + 2] != '='
    decreases |t|
  {
    var n := QCharLen(t);
    if q >= n {
      EqualsStartsEscape(t[n..], q - n);
    }
  }

  /** The escape at `q` is byte number `d` of its character: `d` escapes
      further back is the lead byte, where the text may be cut. */
  ghost predicate IsByteOfChar(t: string, q: nat, d: nat)
    decreases d
  {
    EscapeAt(t, q) &&
    if d == 0 then
      !ContinuationAt(t, q) && CutsBetweenChars(t, q) &&
      (SizeByDigit(t[q + 1]) == 1 ==> CutsBetweenChars(t, q + 3))
    else
      ContinuationAt(t, q) && q >= 3 && IsByteOfChar(t, q - 3, d - 1) && SizeByDigit(t[q - 2]) != 1
  }

  /** Every `=` belongs to some character. */
  lemma {:induction false} CharOfEscape(t: string, q: nat) returns (d: nat)
    requires IsQUtf8(t) && q < |t| && t[q] == '='
    ensures d <= 3 && IsByteOfChar(t, q, d)
    decreases |t|
  {
    var n := QCharLen(t);
    if q >= n {
      d := CharOfEscape(t[n..], q - n);
      ByteShift(t, q, d);
    } else {
      EqualsInFirstChar(t, q);
      d := if q == 0 then 0 else if q == 3 then 1 else if q == 6 then 2 else 3;
      ByteOfFirstChar(t, d);
    }
  }

  lemma EqualsInFirstChar(t: string, q: nat)
    requires StartsWithQChar(t) && q < QCharLen(t) && t[q] == '='
    ensures t[0] == '=' && (q == 0 || q == 3 || q == 6 || q == 9)
  {
    assert QCharLen(t) > 1 ==> EscapeAt(t, 0);
    assert q != 1 && q != 2;
    assert QCharLen(t) > 3 ==> q != 4 && q != 5;
    assert QCharLen(t) > 6 ==> q != 7 && q != 8;
    assert QCharLen(t) > 9 ==> q != 10 && q != 11;
  }

  lemma {:induction false} ByteShift(t: string, q: nat, d: nat)
    requires IsQUtf8(t) && t != "" && QCharLen(t) <= q && IsByteOfChar(t[QCharLen(t)..], q - QCharLen(t), d)
    ensures IsByteOfChar(t, q, d)
    decreases d
  {
    if d > 0 {
      LaterByte(t, QCharLen(t), q, d);
      ByteShift(t, q - 3, d - 1);
    } else {
      LeadShift(t, q);
    }
  }

  /** A byte that is not the first of its character, in the text after `n`. */
  lemma LaterByte(t: string, n: nat, q: nat, d: nat)
    requires 0 < d && n <= q && n <= |t| && IsByteOfChar(t[n..], q - n, d)
    ensures n <= q - 3 && IsByteOfChar(t[n..], q - 3 - n, d - 1)
    ensures ContinuationAt(t, q) && EscapeAt(t, q - 3) && SizeByDigit(t[q - 2]) != 1
  {
    var s := t[n..];
    assert s[q - n] == t[q] && s[q - n + 1] == t[q + 1] && s[q - n + 2] == t[q + 2];
    assert s[q - 3 - n] == t[q - 3] && s[q - 2 - n] == t[q - 2] && s[q - 1 - n] == t[q - 1];
  }

  lemma LeadShift(t: string, q: nat)
    requires IsQUtf8(t) && t != "" && QCharLen(t) <= q && IsByteOfChar(t[QCharLen(t)..], q - QCharLen(t), 0)
    ensures IsByteOfChar(t, q, 0)
  {
    CutShift(t, q);
    if SizeByDigit(t[q + 1]) == 1 { CutShift(t, q + 3); }
  }

  lemma {:induction false} ByteOfFirstChar(t: string, d: nat)
    requires IsQUtf8(t) && 3 * d < QCharLen(t) && t[0] == '='
    ensures IsByteOfChar(t, 3 * d, d)
  {
    FirstCharBytes(t, d);
    if d > 0 {
      ByteOfFirstChar(t, d - 1);
    } else {
      CutAtStart(t);
      if QCharLen(t) == 3 {
        CutAtStart(t[3..]);
        CutShift(t, 3);
      }
    }
  }

  lemma FirstCharBytes(t: string, d: nat)
    requires StartsWithQChar(t) && 3 * d < QCharLen(t) && t[0] == '='
    ensures EscapeAt(t, 3 * d)
    ensures if d == 0 then SizeByDigit(t[1]) != 0 && (SizeByDigit(t[1]) == 1 ==> QCharLen(t) == 3)
      else ContinuationAt(t, 3 * d) && SizeByDigit(t[3 * d - 2]) != 1
  {
  }

  /** With no `=` among the last three characters before `k`, no escape
      crosses `k`. */
  lemma {:induction false} NoEscapeNearby(t: string, k: nat)
    requires IsQUtf8(t) && k <= |t|
    requires forall i :: 0 <= i < |t| && k - 3 <= i < k ==> t[i] != '='
    ensures CutsBetweenChars(t, k)
    decreases |t|
  {
    var n := QCharLen(t);
    if k == 0 {
      CutAtStart(t);
    } else if k >= n {
      NoEscapeNearby(t[n..], k - n);
      CutShift(t, k);
    }
  }

  function Min(a: nat, b: nat): nat {
    if a < b then a else b
  }

  /** `hexdec` of two digits. */
  function HexDec(h: string): nat
    requires |h| == 2 && IsHex(h[0]) && IsHex(h[1])
  {
    16 * HexValue(h[0]) + HexValue(h[1])
  }

  lemma HexDecSize(t: string, q: nat)
    requires EscapeAt(t, q)
    ensures var h := Substr(t, q + 1, 2); var size := SizeByDigit(t[q + 1]);
      && |h| == 2 && IsHex(h[0]) && IsHex(h[1])
      && (HexDec(h) < 128 <==> size == 1) && (128 <= HexDec(h) < 192 <==> size == 0)
  {
  }

  /** A cut that is safe and at most one character early. */
  ghost predicate SafeCut(t: string, maxLength: nat, r: nat) {
    maxLength - 12 <= r <= maxLength && CutsBetweenChars(t, Min(r, |t|)) &&
      (r < maxLength ==> IsLastCut(t, maxLength, r))
  }

  /** The character after the cut reaches the length asked for, or beyond it if it is
      a single byte. */
  ghost predicate IsLastCut(t: string, maxLength: nat, r: nat) {
    EscapeAt(t, r) &&
    var size := SizeByDigit(t[r + 1]);
    r + 3 * size >= maxLength && (size == 1 ==> r + 3 > maxLength)
  }

  lemma {:induction false} SuffixOfWhole(a: string, b: string)
    requires IsQUtf8(a) && IsQUtf8(a + b)
    ensures IsQUtf8(b)
    decreases |a|
  {
    if a == "" {
      assert a + b == b;
    } else {
      QCharOfPrefix(a, b);
      assert (a + b)[QCharLen(a)..] == a[QCharLen(a)..] + b;
      SuffixOfWhole(a[QCharLen(a)..], b);
    }
  }

  /** There is no cut inside a character. */
  lemma NoCutInside(t: string, q: nat, k: nat)
    requires EscapeAt(t, q) && CutsBetweenChars(t, q) && q < k < q + 3 * SizeByDigit(t[q + 1]) && k <= |t|
    ensures !CutsBetweenChars(t, k)
  {
    var b := t[q..k];
    assert t[..k] == t[..q] + b;
    assert b[0] == t[q] && (|b| > 2 ==> b[1] == t[q + 1] && b[2] == t[q + 2]);
    PieceOfChar(b);
    if IsQUtf8(t[..k]) { SuffixOfWhole(t[..q], b); }
  }

  lemma PieceOfChar(b: string)
    requires b != "" && b[0] == '=' && (|b| > 2 ==> |b| < 3 * SizeByDigit(b[1]))
    ensures !IsQUtf8(b)
  {
  }

  /** The lead byte announces a character that reaches beyond byte number `d`. */
  lemma LeadReaches(t: string, q: nat, d: nat)
    requires IsByteOfChar(t, q, d)
    ensures q >= 3 * d && EscapeAt(t, q - 3 * d) && SizeByDigit(t[q - 3 * d + 1]) > d
  {
    EscapeBack(t, q, d, d);
    var lead := q - 3 * d;
    var size := SizeByDigit(t[lead + 1]);
    if size <= d {
      EscapeBack(t, q, d, d - size);
      AfterChar(t, lead, size);
    }
  }

  lemma AfterChar(t: string, q: nat, size: nat)
    requires EscapeAt(t, q) && CutsBetweenChars(t, q) && size == SizeByDigit(t[q + 1]) > 0
    ensures !ContinuationAt(t, q + 3 * size)
  {
    var s := t[q..];
    assert s[0] == t[q] && s[1] == t[q + 1] && s[2] == t[q + 2] && QCharLen(s) == 3 * size;
    assert s[3 * size..] == t[q + 3 * size..];
    if ContinuationAt(t, q + 3 * size) { ContinuationStartsNothing(t, q + 3 * size); }
  }

  lemma ContinuationStartsNothing(t: string, q: nat)
    requires ContinuationAt(t, q)
    ensures !IsQUtf8(t[q..])
  {
    var s := t[q..];
    assert s[0] == t[q] && s[1] == t[q + 1] && s[2] == t[q + 2];
  }

  /** `utf8CharBoundary`. The cut it proposes, or the end of a shorter text,
      lies between two characters, and is at most one character (12 positions)
      before the length asked for. */
  method Utf8CharBoundary(encodedText: string, maxLength: nat) returns (r: nat)
    requires IsQUtf8(encodedText) && maxLength > 12
    ensures maxLength - 12 <= r <= maxLength
    ensures CutsBetweenChars(encodedText, Min(r, |encodedText|))
    ensures forall k :: r < k < maxLength && k <= |encodedText| ==> !CutsBetweenChars(encodedText, k)
    ensures r < maxLength && CutsBetweenChars(encodedText, maxLength) ==> QCharLen(encodedText[r..]) > 3
  {
    var foundSplitPos := false;
    var lookBack := 3;
    r := maxLength;
    // the column of the first escape met, and its place in its character
    ghost var p: nat, d: nat := 0, 0;
    while !foundSplitPos
      invariant 3 <= lookBack <= 12
      invariant Searching(encodedText, maxLength, foundSplitPos, r, lookBack, p, d)
      decreases !foundSplitPos, 12 - lookBack
    {
      foundSplitPos, r, lookBack, p, d := Round(encodedText, maxLength, lookBack, p, d);
    }
    LastCutIsLast(encodedText, maxLength, r);
  }

  lemma LastCutIsLast(t: string, maxLength: nat, r: nat)
    requires SafeCut(t, maxLength, r)
    ensures forall k :: r < k < maxLength && k <= |t| ==> !CutsBetweenChars(t, k)
    ensures r < maxLength && CutsBetweenChars(t, maxLength) ==> QCharLen(t[r..]) > 3
  {
    if r < maxLength {
      var size := SizeByDigit(t[r + 1]);
      forall k | r < k < maxLength && k <= |t| ensures !CutsBetweenChars(t, k) { NoCutInside(t, r, k); }
      if CutsBetweenChars(t, maxLength) {
        if maxLength < r + 3 * size { NoCutInside(t, r, maxLength); }
        assert t[r..][0] == t[r] && t[r..][1] == t[r + 1] && t[r..][2] == t[r + 2];
      }
    }
  }

  /** The look-back has found a cut, or is in column `p`, `d` escapes after the
      lead byte of a character. */
  ghost predicate Searching(t: string, maxLength: nat, found: bool, r: nat, lookBack: nat, p: nat, d: nat) {
    if found then SafeCut(t, maxLength, r) else r == maxLength && Looking(t, maxLength, lookBack, p, d)
  }

  /** One round of the look-back, by the kind of byte that is met. */
  method Round(t: string, maxLength: nat, lookBack: nat, ghost p: nat, ghost d: nat)
    returns (found: bool, r: nat, lookBack': nat, ghost p': nat, ghost d': nat)
    requires IsQUtf8(t) && Looking(t, maxLength, lookBack, p, d)
    ensures Searching(t, maxLength, found, r, lookBack', p', d')
    ensures lookBack <= lookBack' <= 12 && (found || lookBack < lookBack')
  {
    found, r, lookBack', p' := true, maxLength, lookBack, 0;
    var encodedCharPos, dec;
    encodedCharPos, dec, d' := MeetEscape(t, maxLength, lookBack, p, d);
    if encodedCharPos >= 0 {
      p' := encodedCharPos;
      if dec < 128 {
        if encodedCharPos > 0 {
          r := maxLength - (lookBack - encodedCharPos);
        }
      } else if dec >= 192 {
        r := maxLength - (lookBack - encodedCharPos);
      } else {
        found, lookBack' := false, lookBack + 3;
      }
    }
  }

  /** The escape met, and what each kind of byte tells of the cut. */
  method MeetEscape(t: string, maxLength: nat, lookBack: nat, ghost p: nat, ghost d: nat)
      returns (pos: int, dec: int, ghost d': nat)
    requires IsQUtf8(t) && Looking(t, maxLength, lookBack, p, d)
    ensures -1 <= pos < lookBack
    ensures pos == -1 ==> SafeCut(t, maxLength, maxLength)
    ensures pos >= 0 && dec < 128 ==> SafeCut(t, maxLength, if pos > 0 then maxLength - (lookBack - pos) else maxLength)
    ensures pos >= 0 && dec >= 192 ==> SafeCut(t, maxLength, maxLength - (lookBack - pos))
    ensures pos >= 0 && 128 <= dec < 192 ==> lookBack < 12 && Looking(t, maxLength, lookBack + 3, pos, d')
  {
    d' := 0;
    pos, dec := FirstEscape(t, maxLength - lookBack, lookBack);
    if pos >= 0 {
      d' := LookAtEscape(t, maxLength, lookBack, pos, p, d);
    } else {
      NothingFound(t, maxLength, lookBack, p);
    }
  }

  /** The part of a round that reads the text: the position of the first `=` in
      the last `lookBack` characters (-1 for none) and the value escaped there. */
  method FirstEscape(t: string, start: nat, lookBack: nat) returns (pos: int, dec: nat)
    requires IsQUtf8(t)
    ensures -1 <= pos < lookBack
    ensures pos == -1 ==> forall i :: start <= i < start + lookBack && i < |t| ==> t[i] != '='
    ensures pos >= 0 ==>
      (FirstEquals(t, start, start + pos) && EscapeAt(t, start + pos) &&
       (dec < 128 <==> SizeByDigit(t[start + pos + 1]) == 1) &&
       (128 <= dec < 192 <==> SizeByDigit(t[start + pos + 1]) == 0))
  {
    pos, dec := -1, 0;
    var lastChunk := Substr(t, start, lookBack);
    var i := IndexOf('=', lastChunk);
    ChunkIndex(t, start, lookBack);
    if i < |lastChunk| {
      EqualsStartsEscape(t, start + i);
      HexDecSize(t, start + i);
      pos := i;
      var hex := Substr(t, start + pos + 1, 2);
      dec := HexDec(hex);
    }
  }

  /** The search is in column `p`, where it has met byte number `d` of a character
      in the first round, and goes back byte by byte. */
  ghost predicate Looking(t: string, maxLength: nat, lookBack: nat, p: nat, d: nat) {
    3 <= lookBack <= 12 && lookBack % 3 == 0 && p <= 2 && maxLength > 12 &&
    (lookBack > 3 ==> d <= 3 && lookBack <= 3 * d + 3 && IsByteOfChar(t, maxLength - 3 + p, d))
  }

  /** What the first escape of the chunk tells, by the size its byte announces. */
  lemma LookAtEscape(t: string, maxLength: nat, lookBack: nat, pos: nat, p: nat, d: nat) returns (d': nat)
    requires IsQUtf8(t) && Looking(t, maxLength, lookBack, p, d)
    requires pos < lookBack && FirstEquals(t, maxLength - lookBack, maxLength - lookBack + pos)
    ensures var q := maxLength - lookBack + pos;
      EscapeAt(t, q) &&
      var size := SizeByDigit(t[q + 1]);
      && (size == 1 ==> SafeCut(t, maxLength, if pos > 0 then q else maxLength))
      && (size > 1 ==> SafeCut(t, maxLength, q))
      && (size == 0 ==> lookBack < 12 && Looking(t, maxLength, lookBack + 3, pos, d'))
  {
    var e := lookBack / 3 - 1;
    d' := Column(t, maxLength, e, pos, p, d);
    SafeAt(t, maxLength, pos, d', e);
  }

  /** The first `=` at or after `start` is at `q`. */
  ghost predicate FirstEquals(t: string, start: nat, q: nat) {
    start <= q < |t| && t[q] == '=' && forall i :: start <= i < q ==> t[i] != '='
  }

  lemma ChunkIndex(t: string, start: nat, len: nat)
    ensures var chunk := Substr(t, start, len); var pos := IndexOf('=', chunk);
      if pos < |chunk| then pos < len && FirstEquals(t, start, start + pos)
      else forall i :: start <= i < start + len && i < |t| ==> t[i] != '='
  {
    var chunk := Substr(t, start, len);
    forall i | start <= i < start + IndexOf('=', chunk) ensures i < |t| && t[i] != '=' {
      assert t[i] == chunk[i - start];
    }
  }

  /** The escape found is in the column of the earlier rounds, one byte further
      back in the same character. */
  lemma Column(t: string, maxLength: nat, e: nat, pos: nat, p: nat, d: nat) returns (d': nat)
    requires IsQUtf8(t) && e <= 3 && p <= 2 && maxLength > 12
    requires e > 0 ==> e <= d <= 3 && IsByteOfChar(t, maxLength - 3 + p, d)
    requires pos < 3 * e + 3 && FirstEquals(t, maxLength - 3 - 3 * e, maxLength - 3 - 3 * e + pos)
    ensures pos <= 2 && e <= d' <= 3 && IsByteOfChar(t, maxLength - 3 + pos, d')
  {
    if e == 0 {
      d' := FirstColumn(t, maxLength - 3, pos);
    } else {
      d' := d;
      LaterColumn(t, maxLength - 3, e, pos, p, d);
    }
  }

  lemma FirstColumn(t: string, start: nat, pos: nat) returns (d: nat)
    requires IsQUtf8(t) && FirstEquals(t, start, start + pos)
    ensures d <= 3 && IsByteOfChar(t, start + pos, d)
  {
    d := CharOfEscape(t, start + pos);
  }

  lemma LaterColumn(t: string, start: nat, e: nat, pos: nat, p: nat, d: nat)
    requires IsQUtf8(t) && p <= 2 && e <= d && start >= 3 * e
    requires IsByteOfChar(t, start + p, d) && FirstEquals(t, start - 3 * e, start - 3 * e + pos)
    ensures pos == p
  {
    var c := start - 3 * e;
    EscapeBefore(t, start + p, d, e, c + p);
    SameColumn(t, c, pos, p);
  }

  lemma EscapeBefore(t: string, q: nat, d: nat, e: nat, c: nat)
    requires IsByteOfChar(t, q, d) && e <= d && c == q - 3 * e
    ensures EscapeAt(t, c)
  {
    EscapeBack(t, q, d, e);
  }

  /** Going back from byte number `d` of a character meets its other bytes. */
  lemma {:induction false} EscapeBack(t: string, q: nat, d: nat, e: nat)
    requires IsByteOfChar(t, q, d) && e <= d
    ensures q >= 3 * e && EscapeAt(t, q - 3 * e)
    ensures var size := SizeByDigit(t[q - 3 * e + 1]);
      if e < d then size == 0 else size > 0 && (d > 0 ==> size > 1) && CutsBetweenChars(t, q - 3 * e)
    decreases e
  {
    if e > 0 { EscapeBack(t, q - 3, d - 1, e - 1); }
  }

  lemma SameColumn(t: string, start: nat, pos: nat, p: nat)
    requires IsQUtf8(t) && p <= 2 && EscapeAt(t, start + p) && FirstEquals(t, start, start + pos)
    ensures pos == p
  {
    EqualsStartsEscape(t, start + pos);
  }

  /** What the value of the escape tells, `e` rounds after the first. */
  lemma SafeAt(t: string, maxLength: nat, p: nat, d: nat, e: nat)
    requires maxLength > 12 && p <= 2 && e <= d <= 3 && IsByteOfChar(t, maxLength - 3 + p, d)
    ensures var q := maxLength - 3 - 3 * e + p;
      EscapeAt(t, q) &&
      var size := SizeByDigit(t[q + 1]);
      && (size == 1 ==> SafeCut(t, maxLength, if p > 0 then q else maxLength))
      && (size > 1 ==> SafeCut(t, maxLength, q))
      && (size == 0 ==> e < d)
  {
    EscapeBack(t, maxLength - 3 + p, d, e);
    if e == d {
      SafeAtLead(t, maxLength, p, d);
      if d == 0 { SafeAfterSingle(t, maxLength, p); }
    }
  }

  lemma SafeAtLead(t: string, maxLength: nat, p: nat, d: nat)
    requires maxLength > 12 && p <= 2 && d <= 3 && IsByteOfChar(t, maxLength - 3 + p, d)
    ensures var q := maxLength - 3 - 3 * d + p;
      EscapeAt(t, q) && (SizeByDigit(t[q + 1]) > 1 || p > 0 ==> SafeCut(t, maxLength, q))
  {
    EscapeBack(t, maxLength - 3 + p, d, d);
    LeadReaches(t, maxLength - 3 + p, d);
  }

  lemma SafeAfterSingle(t: string, maxLength: nat, p: nat)
    requires maxLength > 12 && p <= 2 && IsByteOfChar(t, maxLength - 3 + p, 0)
    ensures p == 0 && SizeByDigit(t[maxLength - 3 + 1]) == 1 ==> SafeCut(t, maxLength, maxLength)
  {
    AfterSingle(t, maxLength - 3 + p);
  }

  lemma AfterSingle(t: string, q: nat)
    requires IsByteOfChar(t, q, 0)
    ensures SizeByDigit(t[q + 1]) == 1 ==> CutsBetweenChars(t, q + 3)
  {
  }

  lemma NothingFound(t: string, maxLength: nat, lookBack: nat, p: nat)
    requires IsQUtf8(t) && maxLength > 12 && 3 <= lookBack <= 12
    requires lookBack > 3 ==> p <= 2 && EscapeAt(t, maxLength - lookBack + p)
    requires forall i :: maxLength - lookBack <= i < maxLength && 0 <= i < |t| ==> t[i] != '='
    ensures SafeCut(t, maxLength, maxLength)
  {
    assert lookBack > 3 ==> t[maxLength - lookBack + p] == '=';
    if |t| <= maxLength {
      CutAtEnd(t);
    } else {
      NoEscapeNearby(t, maxLength);
    }
  }

  // ---- encoding and decoding keep characters whole -------------------------

  lemma {:induction false} QUtf8IsQText(t: string)
    requires IsQUtf8(t)
    ensures IsQText(t)
    decreases |t|
  {
    if t != "" {
      var n := QCharLen(t);
      QUtf8IsQText(t[n..]);
      if n > 9 { assert t[9..][3..] == t[12..] && IsQText(t[9..]); }
      if n > 6 { assert t[6..][3..] == t[9..] && IsQText(t[6..]); }
      if n > 3 { assert t[3..][3..] == t[6..] && IsQText(t[3..]); }
    }
  }

  lemma {:induction false} QUtf8Append(a: string, b: string)
    requires IsQUtf8(a) && IsQUtf8(b)
    ensures IsQUtf8(a + b)
    decreases |a|
  {
    if a == "" {
      assert a + b == b;
    } else {
      QUtf8Append(a[QCharLen(a)..], b);
      QUtf8Cons(a, b);
    }
  }

  lemma QUtf8Cons(a: string, b: string)
    requires StartsWithQChar(a) && IsQUtf8(a[QCharLen(a)..] + b)
    ensures IsQUtf8(a + b)
  {
    QCharOfPrefix(a, b);
    assert (a + b)[QCharLen(a)..] == a[QCharLen(a)..] + b;
  }

  lemma QCharOfPrefix(a: string, b: string)
    requires StartsWithQChar(a)
    ensures StartsWithQChar(a + b) && QCharLen(a + b) == QCharLen(a)
  {
    assert forall i :: 0 <= i < |a| ==> (a + b)[i] == a[i];
  }

  /** The encoding of whole characters is made of whole characters. */
  lemma {:induction false} EncodeKeepsChars(position: Position, s: string)
    requires IsBytes(s) && IsUtf8(s)
    ensures IsQUtf8(QEncode(position, s))
    decreases |s|
  {
    if s != "" {
      var n := SizeByLead(s[0]);
      var head, rest := s[..n], s[n..];
      assert s == head + rest;
      QEncodeAppend(position, head, rest);
      EncodeKeepsChars(position, rest);
      EncodeOneChar(position, head);
      QUtf8Append(QEncode(position, head), QEncode(position, rest));
    }
  }

  lemma EncodeOneChar(position: Position, c: string)
    requires IsBytes(c) && StartsWithChar(c) && |c| == SizeByLead(c[0])
    ensures IsQUtf8(QEncode(position, c))
  {
    if |c| == 1 {
      assert c == [c[0]] && c[1..] == "";
      EncodeAsciiKeeps(position, c[0]);
      assert QEncode(position, c) == EncodeChar(position, c[0]);
    } else {
      EncodeMultiByte(position, c);
    }
  }

  lemma {:induction false} QEncodeAppend(position: Position, a: string, b: string)
    requires IsBytes(a) && IsBytes(b)
    ensures QEncode(position, a + b) == QEncode(position, a) + QEncode(position, b)
  {
    if a == "" {
      assert a + b == b;
    } else {
      assert (a + b)[1..] == a[1..] + b;
      QEncodeAppend(position, a[1..], b);
    }
  }

  lemma EscapeDigits(c: char)
    requires c as int < 256
    ensures EscapeAt(Escape(c), 0) && SizeByDigit(Escape(c)[1]) == SizeByLead(c)
  {
    var n := c as int / 16;
    assert n == 0 || n == 1 || n == 2 || n == 3 || n == 4 || n == 5 || n == 6 || n == 7
      || n == 8 || n == 9 || n == 10 || n == 11 || n == 12 || n == 13 || n == 14 || n == 15;
  }

  lemma EncodeAsciiKeeps(position: Position, c: char)
    requires c as int < 128
    ensures IsQUtf8(EncodeChar(position, c))
  {
    EscapeDigits(c);
    var e := EncodeChar(position, c);
    if e != "" { assert e[QCharLen(e)..] == ""; }
  }

  /** Bytes of 128 and more are always escaped. */
  lemma {:induction false} EncodeHighBytes(position: Position, s: string, i: nat)
    requires IsBytes(s) && i < |s| && forall j :: 0 <= j < |s| ==> s[j] as int >= 128
    ensures |QEncode(position, s)| == 3 * |s|
    ensures EscapeAt(QEncode(position, s), 3 * i)
    ensures SizeByDigit(QEncode(position, s)[3 * i + 1]) == SizeByLead(s[i])
  {
    HighByteFirst(position, s);
    var e, rest := QEncode(position, s), QEncode(position, s[1..]);
    if |s| > 1 {
      var k := if i > 0 then i - 1 else 0;
      EncodeHighBytes(position, s[1..], k);
      if i > 0 {
        assert e[3 * i] == rest[3 * k] && e[3 * i + 1] == rest[3 * k + 1] && e[3 * i + 2] == rest[3 * k + 2];
      }
    }
  }

  lemma HighByteFirst(position: Position, s: string)
    requires IsBytes(s) && s != "" && s[0] as int >= 128
    ensures var e := QEncode(position, s); var rest := QEncode(position, s[1..]);
      && |e| == 3 + |rest| && e[3..] == rest
      && EscapeAt(e, 0) && SizeByDigit(e[1]) == SizeByLead(s[0])
  {
    EscapeDigits(s[0]);
  }

  lemma EncodeMultiByte(position: Position, s: string)
    requires IsBytes(s) && StartsWithChar(s) && |s| == SizeByLead(s[0]) >= 2
    ensures IsQUtf8(QEncode(position, s))
  {
    var e := QEncode(position, s);
    EncodeHighBytes(position, s, 0);
    EncodeHighBytes(position, s, 1);
    if |s| > 2 { EncodeHighBytes(position, s, 2); }
    if |s| > 3 { EncodeHighBytes(position, s, 3); }
    assert e[QCharLen(e)..] == "";
  }

  /** Decoding whole characters gives whole characters. */
  lemma {:induction false} DecodeKeepsChars(t: string)
    requires IsQUtf8(t) && IsClean(t)
    ensures IsUtf8(QDecode(t))
    decreases |t|
  {
    if t != "" {
      var n := QCharLen(t);
      var head, rest := t[..n], t[n..];
      assert t == head + rest;
      DecodeKeepsChars(rest);
      DecodeFirstChar(t);
      QUtf8IsQText(head);
      QDecodeAppend(head, rest);
      var h := QDecode(head);
      assert (h + QDecode(rest))[|h|..] == QDecode(rest);
    }
  }

  lemma EscapedSize(t: string)
    requires EscapeAt(t, 0)
    ensures StartsWithEscape(t) && SizeByLead(EscapedValue(t) as char) == SizeByDigit(t[1])
  {
  }

  /** A run of escapes decodes to as many bytes, of the sizes their digits tell. */
  lemma {:induction false} DecodeEscapes(t: string, k: nat)
    requires |t| == 3 * k && forall j :: 0 <= j < k ==> EscapeAt(t, 3 * j)
    ensures |QDecode(t)| == k && forall j :: 0 <= j < k ==> SizeByLead(QDecode(t)[j]) == SizeByDigit(t[3 * j + 1])
  {
    if k > 0 {
      assert EscapeAt(t, 3 * 0);
      EscapedSize(t);
      DecodeEscape(t);
      forall j | 0 <= j < k - 1 ensures EscapeAt(t[3..], 3 * j) && t[3..][3 * j + 1] == t[3 * (j + 1) + 1] {
        assert EscapeAt(t, 3 * (j + 1));
      }
      DecodeEscapes(t[3..], k - 1);
    }
  }

  lemma EscapesOfChar(t: string, j: nat)
    requires StartsWithQChar(t) && t[0] == '=' && 3 * j < QCharLen(t)
    ensures EscapeAt(t[..QCharLen(t)], 3 * j) && (j > 0 ==> SizeByDigit(t[3 * j + 1]) == 0)
  {
  }

  lemma FirstCharIsQUtf8(t: string)
    requires StartsWithQChar(t)
    ensures var head := t[..QCharLen(t)]; QCharLen(head) == QCharLen(t) && IsQUtf8(head)
  {
    var head := t[..QCharLen(t)];
    assert head[QCharLen(head)..] == "";
  }

  /** The first character of Q-encoded text decodes to one whole character. */
  lemma DecodeFirstChar(t: string)
    requires IsQUtf8(t) && t != "" && IsClean(t)
    ensures var head := t[..QCharLen(t)]; var c := QDecode(head);
      IsQUtf8(head) && StartsWithChar(c) && |c| == SizeByLead(c[0])
  {
    FirstCharIsQUtf8(t);
    if t[0] == '=' { DecodeEscapedChar(t); } else { DecodeLiteral(t); }
  }

  lemma DecodeLiteral(t: string)
    requires t != "" && t[0] != '=' && IsClean(t)
    ensures QCharLen(t) == 1
    ensures var c := QDecode(t[..1]); StartsWithChar(c) && |c| == SizeByLead(c[0])
  {
    assert t[..1][1..] == "";
  }

  lemma DecodeEscapedChar(t: string)
    requires StartsWithQChar(t) && t[0] == '='
    ensures var c := QDecode(t[..QCharLen(t)]); StartsWithChar(c) && |c| == SizeByLead(c[0])
  {
    var head, k := t[..QCharLen(t)], SizeByDigit(t[1]);
    forall j | 0 <= j < k ensures EscapeAt(head, 3 * j) { EscapesOfChar(t, j); }
    DecodeEscapes(head, k);
    var c := QDecode(head);
    forall i | 1 <= i < k ensures IsContinuation(c[i]) {
      EscapesOfChar(t, i);
      assert head[3 * i + 1] == t[3 * i + 1];
    }
    assert head[3 * 0 + 1] == t[1];
  }

  lemma DecodeEscape(t: string)
    requires StartsWithEscape(t)
    ensures QDecode(t) == [EscapedValue(t) as char] + QDecode(t[3..])
  {
  }
}
