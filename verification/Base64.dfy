/** Base64 (RFC 4648 section 4) and the chunking of multi-byte header text
    (`base64EncodeWrapMB`). */
module Base64 {
  import opened Strings
  import opened QEncoding

  function Digit(n: nat): char
    requires n < 64
  {
    if n < 26 then ('A' as int + n) as char
    else if n < 52 then ('a' as int + n - 26) as char
    else if n < 62 then ('0' as int + n - 52) as char
    else if n == 62 then '+' else '/'
  }

  predicate IsDigit(c: char) {
    IsAlnum(c) || c == '+' || c == '/'
  }

  function Value(c: char): (n: nat)
    requires IsDigit(c)
    ensures n < 64
  {
    if 'A' <= c <= 'Z' then c as int - 'A' as int
    else if 'a' <= c <= 'z' then c as int - 'a' as int + 26
    else if '0' <= c <= '9' then c as int - '0' as int + 52
    else if c == '+' then 62 else 63
  }

  /** The four digits of three bytes. */
  function Quad(a: nat, b: nat, c: nat): (t: string)
    requires a < 256 && b < 256 && c < 256
    ensures |t| == 4
  {
    [Digit(a / 4), Digit(a % 4 * 16 + b / 16), Digit(b % 16 * 4 + c / 64), Digit(c % 64)]
  }

  /** `base64_encode` */
  function Encode(s: string): (t: string)
    requires IsBytes(s)
  {
    if s == "" then ""
    else if |s| == 1 then Quad(s[0] as int, 0, 0)[..2] + "=="
    else if |s| == 2 then Quad(s[0] as int, s[1] as int, 0)[..3] + "="
    else Quad(s[0] as int, s[1] as int, s[2] as int) + Encode(s[3..])
  }

  /** The bytes of up to four digits; missing or padding digits count as 0. */
  function Triple(v0: nat, v1: nat, v2: nat, v3: nat): (s: string)
    requires v0 < 64 && v1 < 64 && v2 < 64 && v3 < 64
    ensures |s| == 3
  {
    [(v0 * 4 + v1 / 16) as char, (v1 % 16 * 16 + v2 / 4) as char, (v2 % 4 * 64 + v3) as char]
  }

  function ValueOrZero(c: char): (n: nat)
    ensures n < 64
  {
    if IsDigit(c) then Value(c) else 0
  }

  /** The decoder: padding tells how many bytes the last group has. */
  function Decode(t: string): string {
    if |t| < 4 then ""
    else
      var bytes := Triple(ValueOrZero(t[0]), ValueOrZero(t[1]), ValueOrZero(t[2]), ValueOrZero(t[3]));
      (if t[2] == '=' then bytes[..1] else if t[3] == '=' then bytes[..2] else bytes) + Decode(t[4..])
  }

  /** The alphabet of table 1 of RFC 4648: A to Z, a to z, 0 to 9, + and /. */
  lemma Alphabet(n: nat)
    requires n < 64
    ensures n == 0 ==> Digit(n) == 'A'
    ensures n == 26 ==> Digit(n) == 'a'
    ensures n == 52 ==> Digit(n) == '0'
    ensures n == 62 ==> Digit(n) == '+'
    ensures n == 63 ==> Digit(n) == '/'
    ensures n !in {0, 26, 52, 62, 63} ==> Digit(n) as int == Digit(n - 1) as int + 1
  {
  }

  lemma ValueOfDigit(n: nat)
    requires n < 64
    ensures IsDigit(Digit(n)) && Value(Digit(n)) == n && Digit(n) != '='
  {
  }

  lemma TripleOfQuad(a: nat, b: nat, c: nat)
    requires a < 256 && b < 256 && c < 256
    ensures Triple(a / 4, a % 4 * 16 + b / 16, b % 16 * 4 + c / 64, c % 64) == [a as char, b as char, c as char]
  {
    assert a / 4 * 4 + (a % 4 * 16 + b / 16) / 16 == a;
    assert (a % 4 * 16 + b / 16) % 16 * 16 + (b % 16 * 4 + c / 64) / 4 == b;
    assert (b % 16 * 4 + c / 64) % 4 * 64 + c % 64 == c;
  }

  lemma QuadDigits(a: nat, b: nat, c: nat)
    requires a < 256 && b < 256 && c < 256
    ensures var q := Quad(a, b, c);
      && (forall i :: 0 <= i < 4 ==> IsDigit(q[i]) && q[i] != '=')
      && Value(q[0]) == a / 4 && Value(q[1]) == a % 4 * 16 + b / 16
      && Value(q[2]) == b % 16 * 4 + c / 64 && Value(q[3]) == c % 64
  {
    ValueOfDigit(a / 4);
    ValueOfDigit(a % 4 * 16 + b / 16);
    ValueOfDigit(b % 16 * 4 + c / 64);
    ValueOfDigit(c % 64);
  }

  lemma DecodeFull(a: nat, b: nat, c: nat, rest: string)
    requires a < 256 && b < 256 && c < 256
    ensures Decode(Quad(a, b, c) + rest) == [a as char, b as char, c as char] + Decode(rest)
  {
    QuadDigits(a, b, c);
    TripleOfQuad(a, b, c);
    var q := Quad(a, b, c);
    var t := q + rest;
    assert t[0] == q[0] && t[1] == q[1] && t[2] == q[2] && t[3] == q[3] && t[4..] == rest;
  }

  lemma DecodePadded(a: nat, b: nat)
    requires a < 256 && b < 256
    ensures Decode(Quad(a, 0, 0)[..2] + "==") == [a as char]
    ensures Decode(Quad(a, b, 0)[..3] + "=") == [a as char, b as char]
  {
    QuadDigits(a, b, 0);
    QuadDigits(a, 0, 0);
    TripleOfQuad(a, b, 0);
    TripleOfQuad(a, 0, 0);
    var t1, t2 := Quad(a, 0, 0)[..2] + "==", Quad(a, b, 0)[..3] + "=";
    assert t1[4..] == "" && t2[4..] == "" && Decode("") == "";
  }

  /** Four digits for every three bytes or part of three. */
  lemma {:induction false} EncodeLength(s: string)
    requires IsBytes(s)
    ensures |Encode(s)| == (|s| + 2) / 3 * 4
  {
    Groups(|s|);
    if |s| > 2 { EncodeLength(s[3..]); }
  }

  lemma Groups(n: nat)
    ensures n >= 3 ==> (n - 3 + 2) / 3 * 4 + 4 == (n + 2) / 3 * 4
    ensures n == 1 || n == 2 ==> (n + 2) / 3 * 4 == 4
  {
  }

  lemma ThreeBytes(s: string)
    requires |s| > 2
    ensures s == [s[0] as int as char, s[1] as int as char, s[2] as int as char] + s[3..]
  {
  }

  /** Decoding reverses encoding. */
  lemma {:induction false} RoundTrip(s: string)
    requires IsBytes(s)
    ensures Decode(Encode(s)) == s
  {
    if s == "" {
    } else if |s| <= 2 {
      DecodePadded(s[0] as int, if |s| == 2 then s[1] as int else 0);
    } else {
      RoundTrip(s[3..]);
      DecodeFull(s[0] as int, s[1] as int, s[2] as int, Encode(s[3..]));
      ThreeBytes(s);
    }
  }

  /** Whole groups of three bytes are encoded on their own. */
  lemma {:induction false} EncodeAppend(a: string, b: string)
    requires IsBytes(a) && IsBytes(b) && |a| % 3 == 0
    ensures Encode(a + b) == Encode(a) + Encode(b)
  {
    if a == "" {
      assert a + b == b;
    } else {
      assert (a + b)[3..] == a[3..] + b;
      EncodeAppend(a[3..], b);
    }
  }

  predicate IsCode(t: string) {
    forall i :: 0 <= i < |t| ==> IsDigit(t[i]) || t[i] == '='
  }

  lemma {:induction false} EncodeIsClean(s: string)
    requires IsBytes(s)
    ensures IsCode(Encode(s)) && IsClean(Encode(s))
  {
    if s != "" {
      var a := s[0] as int;
      var b := if |s| > 1 then s[1] as int else 0;
      var c := if |s| > 2 then s[2] as int else 0;
      QuadDigits(a, b, c);
      if |s| > 2 { EncodeIsClean(s[3..]); }
    }
  }

  // ---- chunks of whole characters ----------------------------------------

  /** A text as its character set divides it: one to four bytes a character. */
  predicate AreChars(chars: seq<string>) {
    forall i :: 0 <= i < |chars| ==> 1 <= |chars[i]| <= 4 && IsBytes(chars[i])
  }

  lemma {:induction false} CharsSize(chars: seq<string>)
    requires AreChars(chars)
    ensures |chars| <= |Concat(chars)| <= 4 * |chars| && IsBytes(Concat(chars))
  {
    if chars != [] { CharsSize(chars[1..]); }
  }

  function Flatten(parts: seq<seq<string>>): seq<string> {
    if parts == [] then [] else Flatten(parts[..|parts| - 1]) + parts[|parts| - 1]
  }

  /** `mb_substr`: at most `n` characters from the `i`-th on. */
  function MbSubstr(chars: seq<string>, i: nat, n: nat): seq<string> {
    if i >= |chars| then [] else if i + n >= |chars| then chars[i..] else chars[i..i + n]
  }

  /** One encoded line: the code of a non-empty run of whole characters, within
      the room left. */
  predicate IsLineOf(line: string, part: seq<string>, room: int) {
    part != [] && IsBytes(Concat(part)) && line == Encode(Concat(part)) && |line| <= room
  }

  predicate AreLinesOf(lines: seq<string>, parts: seq<seq<string>>, room: int) {
    |lines| == |parts| && forall k :: 0 <= k < |lines| ==> IsLineOf(lines[k], parts[k], room)
  }

  /** Every character's code fits the room of a line. */
  predicate CodesFit(chars: seq<string>, room: int) {
    forall i :: 0 <= i < |chars| ==> IsBytes(chars[i]) && |Encode(chars[i])| <= room
  }

  /** `base64EncodeWrapMB`, on the characters of the text, when both loops end: the
      lines are the codes of a partition of the characters. */
  method Base64EncodeWrapMB(chars: seq<string>, charSet: string, lineBreak: string)
    returns (encoded: string, ghost lines: seq<string>, ghost parts: seq<seq<string>>)
    requires chars != [] && AreChars(chars) && CodesFit(chars, 68 - |charSet|)
    ensures lines != [] && encoded == Implode(lineBreak, lines)
    ensures AreLinesOf(lines, parts, 68 - |charSet|) && Flatten(parts) == chars
    ensures lineBreak == "\n" ==> DecodesInLines(encoded, Concat(chars), 68 - |charSet|)
  {
    var start := "=?" + charSet + "?B?";
    var end := "?=";
    var mbLength := |chars|;
    CharsSize(chars);
    var length := 75 - |start| - |end|;
    RoomIsPositive(chars, length);
    var avgLength := Quotient(ThreeTimes(length, mbLength), |Concat(chars)| * 4);
    RoomForOne(chars, length);
    encoded, lines, parts := EncodeChunks(chars, avgLength, length, lineBreak);
    BreaksAreBetween(lines, lineBreak);
    encoded := encoded[..|encoded| - |lineBreak|];
    if lineBreak == "\n" { LinesAreFound(lines, parts, length); }
  }

  /** The lines of the text fit, and decode to the text that was encoded. */
  predicate DecodesInLines(encoded: string, text: string, room: int) {
    var lines := Explode("\n", encoded);
    (forall k :: 0 <= k < |lines| ==> |lines[k]| <= room) && Concat(DecodedLines(lines)) == text
  }

  lemma LinesAreFound(lines: seq<string>, parts: seq<seq<string>>, room: int)
    requires lines != [] && AreLinesOf(lines, parts, room)
    ensures DecodesInLines(Implode("\n", lines), Concat(Flatten(parts)), room)
  {
    forall k | 0 <= k < |lines| ensures '\n' !in lines[k] && |lines[k]| <= room {
      assert IsLineOf(lines[k], parts[k], room);
      EncodeIsClean(Concat(parts[k]));
    }
    ExplodeImplode('\n', lines);
    LinesDecode(lines, parts, room);
  }

  /** The loop over the chunks. */
  method EncodeChunks(chars: seq<string>, avgLength: nat, length: nat, lineBreak: string)
    returns (encoded: string, ghost lines: seq<string>, ghost parts: seq<seq<string>>)
    requires chars != [] && AreChars(chars) && avgLength >= 1 && CodesFit(chars, length)
    ensures lines != [] && encoded == WithBreaks(lines, lineBreak)
    ensures AreLinesOf(lines, parts, length) && Flatten(parts) == chars
  {
    encoded, lines, parts := "", [], [];
    var i := 0;
    while i < |chars|
      invariant encoded == WithBreaks(lines, lineBreak)
      invariant AreLinesOf(lines, parts, length)
      invariant Flatten(parts) == chars[..if i < |chars| then i else |chars|]
      invariant i > 0 ==> lines != []
      decreases |chars| - i
    {
      var offset, chunk := FitChunk(chars, i, avgLength, length);
      OffsetFits(chars, i, avgLength, length);
      Advances(chars, i, avgLength, length);
      ChunkIsLine(chars, i, offset, length);
      encoded := encoded + (chunk + lineBreak);
      ChunkTaken(chars, i, offset, lines, parts, chunk, length, lineBreak);
      lines, parts := lines + [chunk], parts + [MbSubstr(chars, i, offset)];
      i := i + offset;
    }
  }

  lemma ChunkTaken(chars: seq<string>, i: nat, offset: nat, lines: seq<string>, parts: seq<seq<string>>, chunk: string,
      length: nat, lineBreak: string)
    requires i < |chars| && AreLinesOf(lines, parts, length) && Flatten(parts) == chars[..i]
    requires IsLineOf(chunk, MbSubstr(chars, i, offset), length)
    ensures AreLinesOf(lines + [chunk], parts + [MbSubstr(chars, i, offset)], length)
    ensures WithBreaks(lines + [chunk], lineBreak) == WithBreaks(lines, lineBreak) + (chunk + lineBreak)
    ensures Flatten(parts + [MbSubstr(chars, i, offset)]) ==
      chars[..if i + offset < |chars| then i + offset else |chars|]
  {
    WithBreaksSnoc(lines, chunk, lineBreak);
    PartTaken(chars, i, offset, parts);
    LineTaken(lines, parts, chunk, MbSubstr(chars, i, offset), length);
  }

  lemma WithBreaksSnoc(lines: seq<string>, chunk: string, lineBreak: string)
    ensures WithBreaks(lines + [chunk], lineBreak) == WithBreaks(lines, lineBreak) + (chunk + lineBreak)
  {
    assert (lines + [chunk])[..|lines|] == lines;
  }

  lemma PartTaken(chars: seq<string>, i: nat, offset: nat, parts: seq<seq<string>>)
    requires i < |chars| && Flatten(parts) == chars[..i]
    ensures Flatten(parts + [MbSubstr(chars, i, offset)]) ==
      chars[..if i + offset < |chars| then i + offset else |chars|]
  {
    var part := MbSubstr(chars, i, offset);
    assert (parts + [part])[..|parts|] == parts;
    assert Flatten(parts + [part]) == chars[..i] + part;
  }

  lemma LineTaken(lines: seq<string>, parts: seq<seq<string>>, chunk: string, part: seq<string>, length: nat)
    requires AreLinesOf(lines, parts, length) && IsLineOf(chunk, part, length)
    ensures AreLinesOf(lines + [chunk], parts + [part], length)
  {
  }

  /** The code of the chunk of `n` characters from the `i`-th on. */
  function ChunkCode(chars: seq<string>, i: nat, n: nat): string
    requires AreChars(chars)
  {
    CharsSize(MbSubstr(chars, i, n));
    Encode(Concat(MbSubstr(chars, i, n)))
  }

  /** Its length: four characters for each group of three bytes. */
  function ChunkSize(chars: seq<string>, i: nat, n: nat): nat {
    (|Concat(MbSubstr(chars, i, n))| + 2) / 3 * 4
  }

  /** The first length, counting down from `n`, with which the code fits. */
  function Offset(chars: seq<string>, i: nat, n: nat, room: nat): (offset: nat)
    ensures offset <= n
  {
    if n == 0 || ChunkSize(chars, i, n) <= room then n else Offset(chars, i, n - 1, room)
  }

  function Average(chars: seq<string>, room: nat): nat
    requires chars != [] && AreChars(chars)
  {
    CharsSize(chars);
    Quotient(ThreeTimes(room, |chars|), |Concat(chars)| * 4)
  }

  function ThreeTimes(a: nat, b: nat): nat {
    a * b * 3
  }

  function Quotient(a: nat, b: nat): nat
    requires b > 0
  {
    a / b
  }

  lemma EightIsEnough(chars: seq<string>, room: nat)
    requires AreChars(chars) && room >= 8
    ensures CodesFit(chars, room)
  {
    forall i | 0 <= i < |chars| ensures |Encode(chars[i])| <= room { EncodeLength(chars[i]); }
  }

  lemma RoomIsPositive(chars: seq<string>, room: int)
    requires chars != [] && AreChars(chars) && CodesFit(chars, room)
    ensures room >= 4
  {
    EncodeLength(chars[0]);
  }

  /** When every character fits, one fits on average. */
  lemma RoomForOne(chars: seq<string>, room: nat)
    requires chars != [] && AreChars(chars) && CodesFit(chars, room)
    ensures Average(chars, room) >= 1
  {
    RoomIsPositive(chars, room);
    CharsSize(chars);
    forall i | 0 <= i < |chars| ensures |chars[i]| * 4 <= room * 3 { EncodeLength(chars[i]); }
    BytesFit(chars, room);
    DivAtLeastOne(ThreeTimes(room, |chars|), |Concat(chars)| * 4);
  }

  lemma {:induction false} BytesFit(chars: seq<string>, room: nat)
    requires forall i :: 0 <= i < |chars| ==> |chars[i]| * 4 <= room * 3
    ensures |Concat(chars)| * 4 <= ThreeTimes(room, |chars|)
  {
    if chars != [] {
      BytesFit(chars[1..], room);
      assert room * |chars| == room * |chars[1..]| + room;
    }
  }

  lemma DivAtLeastOne(a: nat, b: nat)
    requires a >= b > 0
    ensures Quotient(a, b) >= 1
  {
  }

  lemma OneCharSize(chars: seq<string>, i: nat)
    requires AreChars(chars) && i < |chars|
    ensures ChunkSize(chars, i, 1) == |Encode(chars[i])|
  {
    assert MbSubstr(chars, i, 1) == [chars[i]] && [chars[i]][1..] == [];
    assert Concat([chars[i]]) == chars[i] + "" == chars[i];
    EncodeLength(chars[i]);
  }

  lemma {:induction false} OneCharFits(chars: seq<string>, i: nat, n: nat, room: nat)
    requires i < |chars| && n >= 1 && ChunkSize(chars, i, 1) <= room
    ensures Offset(chars, i, n, room) >= 1
  {
    if n > 1 { OneCharFits(chars, i, n - 1, room); }
  }

  /** The inner loop: shorten the chunk, character by character, until its code
      fits. */
  method FitChunk(chars: seq<string>, i: nat, avgLength: nat, length: nat) returns (offset: nat, chunk: string)
    requires AreChars(chars)
    ensures offset == Offset(chars, i, avgLength, length) && chunk == ChunkCode(chars, i, offset) && |chunk| <= length
  {
    var lookBack := 0;
    offset := avgLength - lookBack;
    chunk := CodeOf(chars, i, offset);
    lookBack := 1;
    while |chunk| > length
      invariant offset == avgLength - lookBack + 1
      invariant IsChunk(chars, i, offset, chunk) && SameOffset(chars, i, avgLength, offset, length)
      decreases offset
    {
      Shorter(chars, i, avgLength, offset, length, chunk);
      offset := avgLength - lookBack;
      chunk := CodeOf(chars, i, offset);
      lookBack := lookBack + 1;
    }
    Fitting(chars, i, avgLength, offset, length, chunk);
  }

  predicate IsChunk(chars: seq<string>, i: nat, n: nat, chunk: string)
    requires AreChars(chars)
  {
    chunk == ChunkCode(chars, i, n)
  }

  lemma CodeSize(chars: seq<string>, i: nat, n: nat)
    requires AreChars(chars)
    ensures |ChunkCode(chars, i, n)| == ChunkSize(chars, i, n)
  {
    CharsSize(MbSubstr(chars, i, n));
    EncodeLength(Concat(MbSubstr(chars, i, n)));
  }

  predicate SameOffset(chars: seq<string>, i: nat, n: nat, m: nat, room: nat) {
    Offset(chars, i, n, room) == Offset(chars, i, m, room)
  }

  lemma Shorter(chars: seq<string>, i: nat, avgLength: nat, n: nat, room: nat, chunk: string)
    requires AreChars(chars) && IsChunk(chars, i, n, chunk) && |chunk| > room &&
      SameOffset(chars, i, avgLength, n, room)
    ensures n > 0 && SameOffset(chars, i, avgLength, n - 1, room)
  {
    EmptyChunkFits(chars, i);
    CodeSize(chars, i, n);
  }

  lemma Fitting(chars: seq<string>, i: nat, avgLength: nat, n: nat, room: nat, chunk: string)
    requires AreChars(chars) && IsChunk(chars, i, n, chunk) && |chunk| <= room &&
      SameOffset(chars, i, avgLength, n, room)
    ensures n == Offset(chars, i, avgLength, room) && chunk == ChunkCode(chars, i, n)
  {
    CodeSize(chars, i, n);
  }

  lemma EmptyChunkFits(chars: seq<string>, i: nat)
    ensures ChunkSize(chars, i, 0) == 0
  {
    assert MbSubstr(chars, i, 0) == [];
  }

  lemma ChunkIsLine(chars: seq<string>, i: nat, n: nat, room: nat)
    requires AreChars(chars) && i < |chars| && n >= 1 && ChunkSize(chars, i, n) <= room
    ensures IsLineOf(ChunkCode(chars, i, n), MbSubstr(chars, i, n), room)
  {
    CharsSize(MbSubstr(chars, i, n));
    EncodeLength(Concat(MbSubstr(chars, i, n)));
  }

  // ---- when the loops end ------------------------------------------------------

  /** Where the outer loop is after `k` rounds. */
  function Position(chars: seq<string>, n: nat, room: nat, k: nat): nat {
    if k == 0 then 0
    else
      var i := Position(chars, n, room, k - 1);
      i + Offset(chars, i, n, room)
  }

  /** The code of a chunk is not shorter than that of a character in it. */
  lemma CodeGrows(chars: seq<string>, i: nat, n: nat, j: nat)
    requires AreChars(chars) && i <= j < i + n && j < |chars|
    ensures ChunkSize(chars, i, n) >= |Encode(chars[j])|
  {
    var part := MbSubstr(chars, i, n);
    assert part[j - i] == chars[j];
    PartIsLonger(part, j - i);
    EncodeLength(chars[j]);
  }

  lemma {:induction false} PartIsLonger(parts: seq<string>, k: nat)
    requires k < |parts|
    ensures |Concat(parts)| >= |parts[k]|
  {
    if k > 0 { PartIsLonger(parts[1..], k - 1); }
  }

  lemma {:induction false} OffsetFits(chars: seq<string>, i: nat, n: nat, room: nat)
    ensures ChunkSize(chars, i, Offset(chars, i, n, room)) <= room
  {
    if n == 0 { EmptyChunkFits(chars, i); }
    else if ChunkSize(chars, i, n) > room { OffsetFits(chars, i, n - 1, room); }
  }

  /** A character whose code does not fit is never passed. */
  lemma StopsBefore(chars: seq<string>, n: nat, room: nat, j: nat, k: nat)
    requires AreChars(chars) && j < |chars| && |Encode(chars[j])| > room
    ensures Position(chars, n, room, k) <= j
  {
    for r := 0 to k
      invariant Position(chars, n, room, r) <= j
    {
      NotPassed(chars, Position(chars, n, room, r), n, room, j);
    }
  }

  lemma NotPassed(chars: seq<string>, i: nat, n: nat, room: nat, j: nat)
    requires AreChars(chars) && i <= j < |chars| && |Encode(chars[j])| > room
    ensures i + Offset(chars, i, n, room) <= j
  {
    OffsetFits(chars, i, n, room);
    if j < i + Offset(chars, i, n, room) { CodeGrows(chars, i, Offset(chars, i, n, room), j); }
  }

  lemma MovesOn(chars: seq<string>, n: nat, room: nat, k: nat)
    requires AreChars(chars) && n >= 1 && CodesFit(chars, room)
    ensures Position(chars, n, room, k) >= if k < |chars| then k else |chars|
  {
    for r := 0 to k
      invariant Position(chars, n, room, r) >= if r < |chars| then r else |chars|
    {
      Advances(chars, Position(chars, n, room, r), n, room);
    }
  }

  lemma Advances(chars: seq<string>, i: nat, n: nat, room: nat)
    requires AreChars(chars) && n >= 1 && CodesFit(chars, room)
    ensures i < |chars| ==> Offset(chars, i, n, room) >= 1
  {
    if i < |chars| {
      OneCharSize(chars, i);
      OneCharFits(chars, i, n, room);
    }
  }

  /** The loops end exactly when the code of every character fits. The inner loop
      ends wherever there is room at all, at an empty chunk if need be; but the
      outer loop never gets past a character that does not fit. */
  lemma LoopsEnd(chars: seq<string>, room: nat)
    requires chars != [] && AreChars(chars)
    ensures (exists k: nat :: Position(chars, Average(chars, room), room, k) >= |chars|) <==> CodesFit(chars, room)
  {
    var n := Average(chars, room);
    if CodesFit(chars, room) {
      RoomForOne(chars, room);
      MovesOn(chars, n, room, |chars|);
    } else {
      var j :| 0 <= j < |chars| && !(IsBytes(chars[j]) && |Encode(chars[j])| <= room);
      forall k: nat ensures Position(chars, n, room, k) <= j { StopsBefore(chars, n, room, j, k); }
    }
  }

  method CodeOf(chars: seq<string>, i: nat, offset: nat) returns (chunk: string)
    requires AreChars(chars)
    ensures IsChunk(chars, i, offset, chunk)
  {
    CharsSize(MbSubstr(chars, i, offset));
    chunk := Encode(Concat(MbSubstr(chars, i, offset)));
  }

  function WithBreaks(lines: seq<string>, lineBreak: string): string {
    if lines == [] then "" else WithBreaks(lines[..|lines| - 1], lineBreak) + (lines[|lines| - 1] + lineBreak)
  }

  /** Dropping the last break leaves the lines with breaks between them. */
  lemma {:induction false} BreaksAreBetween(lines: seq<string>, lineBreak: string)
    requires lines != []
    ensures WithBreaks(lines, lineBreak) == Implode(lineBreak, lines) + lineBreak
  {
    var n := |lines| - 1;
    if n > 0 {
      BreaksAreBetween(lines[..n], lineBreak);
    } else {
      assert lines[..0] == [];
    }
  }

  function DecodedLines(lines: seq<string>): (r: seq<string>)
    ensures |r| == |lines| && forall k :: 0 <= k < |r| ==> r[k] == Decode(lines[k])
  {
    seq(|lines|, k requires 0 <= k < |lines| => Decode(lines[k]))
  }

  lemma DecodedSnoc(lines: seq<string>)
    requires lines != []
    ensures var n := |lines| - 1; Concat(DecodedLines(lines)) == Concat(DecodedLines(lines[..n])) + Decode(lines[n])
  {
    var n := |lines| - 1;
    assert DecodedLines(lines) == DecodedLines(lines[..n]) + [Decode(lines[n])];
    ConcatSnoc(DecodedLines(lines[..n]), Decode(lines[n]));
  }

  /** A reader who decodes each line and joins the results has the text. */
  lemma {:induction false} LinesDecode(lines: seq<string>, parts: seq<seq<string>>, room: int)
    requires AreLinesOf(lines, parts, room)
    ensures Concat(DecodedLines(lines)) == Concat(Flatten(parts))
    decreases |lines|
  {
    if lines != [] {
      var n := |lines| - 1;
      LinesDecode(lines[..n], parts[..n], room);
      assert IsLineOf(lines[n], parts[n], room);
      RoundTrip(Concat(parts[n]));
      DecodedSnoc(lines);
      ConcatAppend(Flatten(parts[..n]), parts[n]);
    }
  }
}
