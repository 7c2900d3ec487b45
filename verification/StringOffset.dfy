/** Assignment to a string offset (`$s[$key] = $value`) by the rules of PHP 7:
    the key is cast to an integer, and one byte is written there. */
module StringOffset {

  predicate IsDecimal(c: char) {
    '0' <= c <= '9'
  }

  predicate IsSpace(c: char) {
    c == ' ' || 9 <= c as int <= 13
  }

  /** The number of digits at the start. */
  function DigitCount(s: string): (n: nat)
    ensures n <= |s| && forall i :: 0 <= i < n ==> IsDecimal(s[i])
  {
    if s == "" || !IsDecimal(s[0]) then 0 else 1 + DigitCount(s[1..])
  }

  function DigitValue(c: char): nat
    requires IsDecimal(c)
  {
    c as int - '0' as int
  }

  function Decimal(digits: string): nat
    requires forall i :: 0 <= i < |digits| ==> IsDecimal(digits[i])
  {
    if digits == "" then 0
    else 10 * Decimal(digits[..|digits| - 1]) + DigitValue(digits[|digits| - 1])
  }

  /** The decimal point moved by `places` to the right; the fraction is dropped. */
  function Shifted(n: nat, places: int): nat
    decreases if places < 0 then -places else places
  {
    if places == 0 then n
    else if places > 0 then Shifted(10 * n, places - 1)
    else Shifted(n / 10, places + 1)
  }

  /** The exponent `tail` starts with, or 0. */
  function Exponent(tail: string): int {
    if |tail| < 2 || (tail[0] != 'e' && tail[0] != 'E') then 0
    else
      var digits := if tail[1] == '+' || tail[1] == '-' then tail[2..] else tail[1..];
      var size: int := Decimal(digits[..DigitCount(digits)]);
      if tail[1] == '-' then -size else size
  }

  /** Digits and an exponent; what follows them is ignored. */
  function Magnitude(s: string): nat {
    var n := DigitCount(s);
    if n == 0 then 0 else Shifted(Decimal(s[..n]), Exponent(s[n..]))
  }

  /** `(int) $key`, for a key without a point. */
  function IntOf(key: string): int {
    if key == "" then 0
    else if IsSpace(key[0]) then IntOf(key[1..])
    else if key[0] == '-' then 0 - Magnitude(key[1..])
    else if key[0] == '+' then Magnitude(key[1..])
    else Magnitude(key)
  }

  function Blanks(n: nat): string {
    seq(n, _ => ' ')
  }

  /** A negative offset counts from the end, and is ignored before the start; a
      string that is too short is filled with blanks. */
  function WithByte(s: string, at: int, c: char): string {
    if at < -|s| then s
    else
      var k := if at < 0 then at + |s| else at;
      if k < |s| then s[k := c] else s + Blanks(k - |s|) + [c]
  }

  /** There is another byte at the offset, or none yet. */
  predicate IsOther(s: string, at: int, c: char) {
    -|s| <= at && (at >= |s| || s[if at < 0 then at + |s| else at] != c)
  }

  lemma WriteChanges(s: string, at: int, c: char)
    ensures WithByte(s, at, c) != s <==> IsOther(s, at, c)
  {
    if at >= |s| {
      assert |WithByte(s, at, c)| == at + 1;
    } else if at >= -|s| {
      var k := if at < 0 then at + |s| else at;
      assert s[k := c][k] == c;
      if s[k] == c { assert s[k := c] == s; }
    }
  }

  /** What is at each place afterwards: the byte at the offset, counted from the end if
      it is negative, blanks before it where the string did not reach, and the old bytes. */
  lemma WhatIsWritten(s: string, at: int, c: char)
    ensures var r := WithByte(s, at, c); var k := if at < 0 then at + |s| else at;
      && (k < 0 ==> r == s)
      && (k >= 0 ==> |r| == (if k < |s| then |s| else k + 1) && r[k] == c)
      && (forall i :: 0 <= i < |r| && i != k ==> r[i] == if i < |s| then s[i] else ' ')
  {
  }

  // ---- which offset a key stands for --------------------------------------------

  /** A number as PHP prints it. */
  function Printed(n: nat): (s: string)
    ensures s != "" && forall i :: 0 <= i < |s| ==> IsDecimal(s[i])
  {
    if n < 10 then ['0' + n as char] else Printed(n / 10) + ['0' + (n % 10) as char]
  }

  lemma {:induction false} PrintedIsRead(n: nat)
    ensures Decimal(Printed(n)) == n
  {
    if n >= 10 {
      PrintedIsRead(n / 10);
      var s := Printed(n);
      assert s[..|s| - 1] == Printed(n / 10) && s[|s| - 1] == '0' + (n % 10) as char;
    } else {
      assert Printed(n)[..0] == "" && Decimal("") == 0;
    }
  }

  lemma {:induction false} DigitsThenRest(digits: string, rest: string)
    requires forall i :: 0 <= i < |digits| ==> IsDecimal(digits[i])
    requires rest == "" || !IsDecimal(rest[0])
    ensures DigitCount(digits + rest) == |digits|
  {
    if digits == "" {
      assert digits + rest == rest;
    } else {
      assert (digits + rest)[0] == digits[0] && (digits + rest)[1..] == digits[1..] + rest;
      DigitsThenRest(digits[1..], rest);
    }
  }

  lemma PrintedMagnitude(n: nat, rest: string)
    requires rest == "" || !IsDecimal(rest[0])
    ensures Magnitude(Printed(n) + rest) == Shifted(n, Exponent(rest))
  {
    var d := Printed(n);
    DigitsThenRest(d, rest);
    assert (d + rest)[..|d|] == d && (d + rest)[|d|..] == rest;
    PrintedIsRead(n);
  }

  lemma {:induction false} BlanksAreSkipped(blanks: string, key: string)
    requires forall i :: 0 <= i < |blanks| ==> IsSpace(blanks[i])
    ensures IntOf(blanks + key) == IntOf(key)
  {
    if blanks == "" {
      assert blanks + key == key;
    } else {
      assert (blanks + key)[0] == blanks[0] && (blanks + key)[1..] == blanks[1..] + key;
      BlanksAreSkipped(blanks[1..], key);
    }
  }

  lemma SignIsRead(text: string)
    requires text != "" && IsDecimal(text[0])
    ensures IntOf(text) == IntOf("+" + text) == Magnitude(text) && IntOf("-" + text) == 0 - Magnitude(text)
  {
    assert ("+" + text)[1..] == text && ("-" + text)[1..] == text;
  }

  lemma StartsWithDigit(n: nat, rest: string)
    ensures var text := Printed(n) + rest; text != "" && IsDecimal(text[0])
  {
    assert (Printed(n) + rest)[0] == Printed(n)[0];
  }

  /** A printed number stands for itself, after blanks and a sign, whatever
      follows it that is no digit and no exponent. */
  lemma OffsetOfNumber(blanks: string, n: nat, rest: string)
    requires forall i :: 0 <= i < |blanks| ==> blanks[i] == ' ' || 9 <= blanks[i] as int <= 13
    requires rest == "" || (!('0' <= rest[0] <= '9') && rest[0] != 'e' && rest[0] != 'E')
    ensures IntOf(blanks + (Printed(n) + rest)) == n
    ensures IntOf(blanks + ("+" + (Printed(n) + rest))) == n
    ensures IntOf(blanks + ("-" + (Printed(n) + rest))) == 0 - n
  {
    var text := Printed(n) + rest;
    PrintedMagnitude(n, rest);
    StartsWithDigit(n, rest);
    SignIsRead(text);
    BlanksAreSkipped(blanks, text);
    BlanksAreSkipped(blanks, "+" + text);
    BlanksAreSkipped(blanks, "-" + text);
  }

  /** Text without a number in front stands for 0. */
  lemma OffsetOfText(key: string)
    requires key == "" || !(IsDecimal(key[0]) || IsSpace(key[0]) || key[0] == '+' || key[0] == '-')
    ensures IntOf(key) == 0
  {
  }

  function PowerOfTen(k: nat): nat {
    if k == 0 then 1 else 10 * PowerOfTen(k - 1)
  }

  /** An exponent moves the decimal point to the right. */
  lemma OffsetWithExponent(n: nat, k: nat, tail: string)
    requires |tail| > 1 && (tail[0] == 'e' || tail[0] == 'E')
    requires tail[1..] == Printed(k) || (tail[1] == '+' && tail[2..] == Printed(k))
    ensures IntOf(Printed(n) + tail) == n * PowerOfTen(k)
  {
    PrintedIsRead(k);
    if tail[1] == '+' { ExponentAfter(tail, Printed(k)); } else { ExponentWithout(tail, Printed(k)); }
    Exponentiated(n, tail);
    ShiftedUp(n, k);
  }

  /** Or to the left; the fraction is dropped. */
  lemma OffsetWithNegativeExponent(n: nat, k: nat, tail: string)
    requires |tail| > 1 && (tail[0] == 'e' || tail[0] == 'E') && tail[1] == '-' && tail[2..] == Printed(k)
    ensures var i := IntOf(Printed(n) + tail); i * PowerOfTen(k) <= n < (i + 1) * PowerOfTen(k)
  {
    IsShiftedDown(n, k, tail);
    ShiftedDown(n, k);
  }

  lemma IsShiftedDown(n: nat, k: nat, tail: string)
    requires |tail| > 1 && (tail[0] == 'e' || tail[0] == 'E') && tail[1] == '-' && tail[2..] == Printed(k)
    ensures IntOf(Printed(n) + tail) == Shifted(n, 0 - k)
  {
    PrintedIsRead(k);
    ExponentAfter(tail, Printed(k));
    Exponentiated(n, tail);
  }

  lemma Exponentiated(n: nat, tail: string)
    requires tail != "" && !IsDecimal(tail[0])
    ensures IntOf(Printed(n) + tail) == Shifted(n, Exponent(tail))
  {
    PrintedMagnitude(n, tail);
    StartsWithDigit(n, tail);
    SignIsRead(Printed(n) + tail);
  }

  lemma ExponentWithout(tail: string, d: string)
    requires d != "" && (forall i :: 0 <= i < |d| ==> IsDecimal(d[i]))
    requires tail != "" && (tail[0] == 'e' || tail[0] == 'E') && tail[1..] == d
    ensures Exponent(tail) == Decimal(d)
  {
    DigitsThenRest(d, "");
    assert d + "" == d && d[..|d|] == d;
    assert tail[1] == d[0];
  }

  lemma ExponentAfter(tail: string, d: string)
    requires d != "" && (forall i :: 0 <= i < |d| ==> IsDecimal(d[i]))
    requires |tail| > 1 && (tail[0] == 'e' || tail[0] == 'E') && (tail[1] == '+' || tail[1] == '-') && tail[2..] == d
    ensures Exponent(tail) == if tail[1] == '-' then 0 - Decimal(d) else Decimal(d)
  {
    DigitsThenRest(d, "");
    assert d + "" == d && d[..|d|] == d;
  }

  lemma {:induction false} ShiftedUp(n: nat, k: nat)
    ensures Shifted(n, k) == n * PowerOfTen(k)
    decreases k
  {
    if k > 0 {
      ShiftedUp(10 * n, k - 1);
      assert (10 * n) * PowerOfTen(k - 1) == n * (10 * PowerOfTen(k - 1));
    }
  }

  lemma {:induction false} ShiftedDown(n: nat, k: nat)
    ensures Shifted(n, 0 - k) * PowerOfTen(k) <= n < (Shifted(n, 0 - k) + 1) * PowerOfTen(k)
    decreases k
  {
    if k > 0 {
      ShiftedDown(n / 10, k - 1);
      Tenfold(Shifted(n, 0 - k), PowerOfTen(k - 1), n);
    }
  }

  lemma Tenfold(i: nat, p: nat, n: nat)
    requires i * p <= n / 10 < (i + 1) * p
    ensures i * (10 * p) <= n < (i + 1) * (10 * p)
  {
    assert i * (10 * p) == 10 * (i * p) && (i + 1) * (10 * p) == 10 * ((i + 1) * p);
  }
}
