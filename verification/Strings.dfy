/** The PHP string functions the mailer is written with, on byte strings
    (one `char` for each byte), and the laws about them that the proofs use. */
module Strings {

  const CRLF: string := "\r\n"

  /** The three values the mailer's line ending is ever given. */
  predicate IsLineEnding(le: string) {
    le == "\n" || le == "\r\n" || le == "\r"
  }

  type LineEnding = s: string | IsLineEnding(s) witness "\n"

  /** No carriage return and no line feed. */
  predicate BreakFree(s: string) {
    forall i :: 0 <= i < |s| ==> s[i] != '\r' && s[i] != '\n'
  }

  /** A byte outside of ASCII. */
  predicate HasHighByte(s: string) {
    exists i :: 0 <= i < |s| && s[i] as int >= 128
  }

  /** `substr(s, start, len)` for a start that is not negative. */
  function Substr(s: string, start: nat, len: nat): string {
    if start >= |s| then ""
    else if start + len >= |s| then s[start..]
    else s[start..start + len]
  }

  /** `str_replace(find, repl, s)` with a single pattern. */
  function Replace(find: string, repl: string, s: string): string
    requires find != ""
    decreases |s|
  {
    if s == "" then ""
    else if find <= s then repl + Replace(find, repl, s[|find|..])
    else [s[0]] + Replace(find, repl, s[1..])
  }

  /** `explode(sep, s)`. */
  function Explode(sep: string, s: string): (parts: seq<string>)
    requires sep != ""
    ensures parts != []
    decreases |s|
  {
    if s == "" then [""]
    else if sep <= s then [""] + Explode(sep, s[|sep|..])
    else
      var rest := Explode(sep, s[1..]);
      [[s[0]] + rest[0]] + rest[1..]
  }

  /** `implode(sep, parts)`. */
  function Implode(sep: string, parts: seq<string>): string {
    if parts == [] then ""
    else if |parts| == 1 then parts[0]
    else Implode(sep, parts[..|parts| - 1]) + sep + parts[|parts| - 1]
  }

  function Concat(parts: seq<string>): string {
    if parts == [] then "" else parts[0] + Concat(parts[1..])
  }

  /** The characters `trim` removes from both ends. */
  predicate IsTrimmed(c: char) {
    c == ' ' || c == '\t' || c == '\n' || c == '\r' || c == '\0' || c as int == 11
  }

  function TrimLeft(s: string): string {
    if s != "" && IsTrimmed(s[0]) then TrimLeft(s[1..]) else s
  }

  function TrimRight(s: string): string {
    if s != "" && IsTrimmed(s[|s| - 1]) then TrimRight(s[..|s| - 1]) else s
  }

  function Trim(s: string): string {
    TrimRight(TrimLeft(s))
  }

  /** `strtolower` on ASCII letters. */
  function LowerChar(c: char): char {
    if 'A' <= c <= 'Z' then (c as int + 32) as char else c
  }

  function ToLower(s: string): (r: string)
    ensures |r| == |s|
  {
    seq(|s|, i requires 0 <= i < |s| => LowerChar(s[i]))
  }

  /** All line breaks (CRLF, CR, LF) turned into LF, in one pass. */
  function Unix(s: string): string
    decreases |s|
  {
    if s == "" then ""
    else if CRLF <= s then "\n" + Unix(s[2..])
    else if s[0] == '\r' then "\n" + Unix(s[1..])
    else [s[0]] + Unix(s[1..])
  }

  // ---- laws ------------------------------------------------------------

  /** Lower case differs in the letters A to Z alone. */
  lemma LowerCaseIs(s: string, i: nat)
    requires i < |s|
    ensures 'A' <= s[i] <= 'Z' ==> ToLower(s)[i] as int == s[i] as int + 32
    ensures !('A' <= s[i] <= 'Z') ==> ToLower(s)[i] == s[i]
  {
  }

  /** Trimming takes white space, and null bytes, off both ends and nothing else. */
  lemma TrimmedIs(s: string)
    ensures exists a: string, b: string ::
      s == a + Trim(s) + b && (forall c :: c in a + b ==> c in " \t\n\r\0\U{0B}")
    ensures Trim(s) != "" ==> Trim(s)[0] !in " \t\n\r\0\U{0B}" && Trim(s)[|Trim(s)| - 1] !in " \t\n\r\0\U{0B}"
  {
    var a := TrimmedLeft(s);
    var t := TrimLeft(s);
    var b := TrimmedRight(t);
    Assoc(a, Trim(s), b);
    if Trim(s) != "" { assert Trim(s)[0] == t[0]; }
  }

  lemma {:induction false} TrimmedLeft(s: string) returns (a: string)
    ensures s == a + TrimLeft(s) && (forall c :: c in a ==> IsTrimmed(c))
    ensures TrimLeft(s) != "" ==> !IsTrimmed(TrimLeft(s)[0])
  {
    a := "";
    if s != "" && IsTrimmed(s[0]) {
      var rest := TrimmedLeft(s[1..]);
      a := [s[0]] + rest;
    }
  }

  lemma {:induction false} TrimmedRight(s: string) returns (b: string)
    ensures s == TrimRight(s) + b && (forall c :: c in b ==> IsTrimmed(c))
    ensures TrimRight(s) != "" ==> !IsTrimmed(TrimRight(s)[|TrimRight(s)| - 1])
  {
    b := "";
    if s != "" && IsTrimmed(s[|s| - 1]) {
      var rest := TrimmedRight(s[..|s| - 1]);
      b := rest + [s[|s| - 1]];
    }
  }

  lemma Assoc(a: string, b: string, c: string)
    ensures (a + b) + c == a + (b + c)
  {
  }

  lemma CharPrefix(c: char, s: string)
    requires s != ""
    ensures [c] <= s <==> s[0] == c
  {
    assert [c] <= s <==> [c] == s[..1];
  }

  lemma {:induction false} ConcatAppend(a: seq<string>, b: seq<string>)
    ensures Concat(a + b) == Concat(a) + Concat(b)
  {
    if a == [] {
      assert a + b == b;
    } else {
      assert (a + b)[1..] == a[1..] + b;
      ConcatAppend(a[1..], b);
    }
  }

  lemma ConcatSnoc(a: seq<string>, x: string)
    ensures Concat(a + [x]) == Concat(a) + x
  {
    ConcatAppend(a, [x]);
    assert [x][1..] == [];
  }

  lemma {:induction false} ImplodeCons(sep: string, x: string, rest: seq<string>)
    requires rest != []
    ensures Implode(sep, [x] + rest) == x + sep + Implode(sep, rest)
  {
    var all := [x] + rest;
    if |rest| == 1 {
      assert all[..1] == [x];
    } else {
      assert all[..|all| - 1] == [x] + rest[..|rest| - 1];
      ImplodeCons(sep, x, rest[..|rest| - 1]);
    }
  }

  lemma ImplodeSnoc(sep: string, parts: seq<string>, x: string)
    requires parts != []
    ensures Implode(sep, parts + [x]) == Implode(sep, parts) + sep + x
  {
    assert (parts + [x])[..|parts|] == parts;
  }

  /** Exploding and imploding are inverse. */
  lemma {:induction false} ImplodeExplode(sep: string, s: string)
    requires sep != ""
    ensures Implode(sep, Explode(sep, s)) == s
    decreases |s|
  {
    if s == "" {
    } else if sep <= s {
      ImplodeExplode(sep, s[|sep|..]);
      ImplodeCons(sep, "", Explode(sep, s[|sep|..]));
      HeadAndRest(sep, s);
    } else {
      ImplodeExplode(sep, s[1..]);
      ImplodeCharFirst(sep, s[0], Explode(sep, s[1..]));
      HeadAndRest([s[0]], s);
    }
  }

  lemma HeadAndRest(head: string, s: string)
    requires head <= s
    ensures head + s[|head|..] == s && "" + head + s[|head|..] == s
  {
  }

  lemma ImplodeCharFirst(sep: string, c: char, parts: seq<string>)
    requires parts != []
    ensures Implode(sep, [[c] + parts[0]] + parts[1..]) == [c] + Implode(sep, parts)
  {
    if |parts| > 1 {
      assert parts == [parts[0]] + parts[1..];
      ImplodeCons(sep, parts[0], parts[1..]);
      ImplodeCons(sep, [c] + parts[0], parts[1..]);
      Assoc([c], parts[0], sep + Implode(sep, parts[1..]));
      Assoc(parts[0], sep, Implode(sep, parts[1..]));
      Assoc([c] + parts[0], sep, Implode(sep, parts[1..]));
    } else {
      assert parts[1..] == [];
    }
  }

  /** A one-character separator occurs in no part. */
  lemma {:induction false} ExplodeFree(c: char, s: string)
    ensures forall p :: p in Explode([c], s) ==> c !in p
    decreases |s|
  {
    if s != "" {
      if [c] <= s {
        ExplodeFree(c, s[1..]);
      } else {
        CharPrefix(c, s);
        ExplodeFree(c, s[1..]);
      }
    }
  }

  /** Every character of a part comes from the exploded string. */
  lemma {:induction false} ExplodeSubset(sep: string, s: string, p: string, c: char)
    requires sep != "" && p in Explode(sep, s) && c in p
    ensures c in s
    decreases |s|
  {
    if s != "" {
      if sep <= s {
        ExplodeSubset(sep, s[|sep|..], p, c);
      } else {
        var rest := Explode(sep, s[1..]);
        if p in rest {
          ExplodeSubset(sep, s[1..], p, c);
        } else {
          assert p == [s[0]] + rest[0];
          if c != s[0] {
            assert c in rest[0];
            ExplodeSubset(sep, s[1..], rest[0], c);
          }
        }
      }
    }
  }

  /** Without the separator's first character there is only one part. */
  lemma {:induction false} ExplodeAbsent(sep: string, s: string)
    requires sep != "" && sep[0] !in s
    ensures Explode(sep, s) == [s]
  {
    if s != "" {
      assert !(sep <= s) by { assert s[0] in s; }
      assert sep[0] !in s[1..];
      ExplodeAbsent(sep, s[1..]);
      assert [s[0]] + s[1..] == s;
    }
  }

  lemma {:induction false} ExplodeOnce(sep: string, a: string, b: string)
    requires |sep| == 1 && sep[0] !in a
    ensures Explode(sep, a + sep + b) == [a] + Explode(sep, b)
  {
    var s := a + sep + b;
    if a == "" {
      assert s == sep + b;
      assert sep <= s && s[1..] == b;
    } else {
      CharPrefix(sep[0], s);
      assert sep == [sep[0]] && s[0] == a[0];
      assert s[1..] == a[1..] + sep + b;
      ExplodeOnce(sep, a[1..], b);
      assert [a[0]] + a[1..] == a;
    }
  }

  /** Exploding undoes imploding. */
  lemma {:induction false} ExplodeImplode(c: char, parts: seq<string>)
    requires parts != [] && forall i :: 0 <= i < |parts| ==> c !in parts[i]
    ensures Explode([c], Implode([c], parts)) == parts
  {
    if |parts| == 1 {
      ExplodeAbsent([c], parts[0]);
    } else {
      assert parts == [parts[0]] + parts[1..];
      ImplodeCons([c], parts[0], parts[1..]);
      ExplodeImplode(c, parts[1..]);
      ExplodeOnce([c], parts[0], Implode([c], parts[1..]));
    }
  }

  /** Replacing a single character works one character at a time. */
  lemma {:induction false} ReplaceCharAppend(c: char, repl: string, a: string, b: string)
    ensures Replace([c], repl, a + b) == Replace([c], repl, a) + Replace([c], repl, b)
    decreases |a|
  {
    if a == "" {
      assert a + b == b;
    } else {
      assert (a + b)[1..] == a[1..] + b;
      assert (a + b)[0] == a[0];
      ReplaceCharAppend(c, repl, a[1..], b);
      assert [c] <= a + b <==> a[0] == c;
      assert [c] <= a <==> a[0] == c;
    }
  }

  lemma ReplaceOneChar(find: char, repl: string, c: char)
    ensures Replace([find], repl, [c]) == if c == find then repl else [c]
  {
    CharPrefix(find, [c]);
    assert [c][1..] == "" && repl + "" == repl && [c] + "" == [c];
  }

  lemma {:induction false} ReplaceAbsent(find: string, repl: string, s: string)
    requires find != "" && find[0] !in s
    ensures Replace(find, repl, s) == s
  {
    if s != "" {
      assert !(find <= s) by { assert s[0] in s; }
      assert find[0] !in s[1..];
      ReplaceAbsent(find, repl, s[1..]);
      assert [s[0]] + s[1..] == s;
    }
  }

  /** Two replacements in a row, CRLF first and CR second, are the one-pass
      normalisation: the first leaves only bare CRs for the second. */
  lemma {:induction false} TwoStepUnix(s: string)
    ensures Replace("\r", "\n", Replace("\r\n", "\n", s)) == Unix(s)
    decreases |s|
  {
    if s == "" {
    } else if CRLF <= s {
      var rest := Replace("\r\n", "\n", s[2..]);
      assert Replace("\r\n", "\n", s) == "\n" + rest;
      ReplaceCharAppend('\r', "\n", "\n", rest);
      assert Replace("\r", "\n", "\n") == "\n";
      TwoStepUnix(s[2..]);
    } else {
      var rest := Replace("\r\n", "\n", s[1..]);
      assert Replace("\r\n", "\n", s) == [s[0]] + rest;
      ReplaceCharAppend('\r', "\n", [s[0]], rest);
      assert [s[0]][1..] == "";
      assert Replace("\r", "\n", "") == "";
      CharPrefix('\r', [s[0]]);
      assert Replace("\r", "\n", [s[0]]) == if s[0] == '\r' then "\n" else [s[0]];
      TwoStepUnix(s[1..]);
    }
  }

  lemma {:induction false} UnixHasNoCR(s: string)
    ensures '\r' !in Unix(s)
    decreases |s|
  {
    if s == "" {
    } else if CRLF <= s {
      UnixHasNoCR(s[2..]);
    } else {
      UnixHasNoCR(s[1..]);
    }
  }

  lemma {:induction false} UnixOfBreakFree(s: string)
    requires BreakFree(s)
    ensures Unix(s) == s
  {
    if s != "" {
      UnixOfBreakFree(s[1..]);
      assert [s[0]] + s[1..] == s;
    }
  }

  /** The lines of a normalised text hold no line break characters. */
  lemma UnixLinesBreakFree(t: string)
    requires '\r' !in t
    ensures forall l :: l in Explode("\n", t) ==> BreakFree(l)
  {
    ExplodeFree('\n', t);
    forall l, i | l in Explode("\n", t) && 0 <= i < |l| ensures l[i] != '\r' && l[i] != '\n' {
      ExplodeSubset("\n", t, l, l[i]);
    }
  }

  /** Splitting at another line ending gives the same lines. */
  lemma {:induction false} LinesUnderLE(le: string, t: string)
    requires IsLineEnding(le) && '\r' !in t
    ensures Explode(le, Replace("\n", le, t)) == Explode("\n", t)
  {
    if t == "" {
    } else {
      var rest := Replace("\n", le, t[1..]);
      assert '\r' !in t[1..];
      LinesUnderLE(le, t[1..]);
      if t[0] == '\n' {
        assert "\n" <= t;
        var all := le + rest;
        assert Replace("\n", le, t) == all;
        assert le <= all && all[|le|..] == rest;
      } else {
        assert !("\n" <= t);
        var all := [t[0]] + rest;
        assert Replace("\n", le, t) == all;
        assert t[0] in t;
        assert !(le <= all) by { assert all[0] == t[0]; }
        assert all[1..] == rest;
      }
    }
  }

  /** Only a text that ends with LF ends with the line ending afterwards, and
      dropping one drops the other. */
  lemma LastBreakUnderLE(le: string, t: string)
    requires IsLineEnding(le) && '\r' !in t
    ensures var r := Replace("\n", le, t);
      (|r| >= |le| && r[|r| - |le|..] == le <==> t != "" && t[|t| - 1] == '\n')
      && (t != "" && t[|t| - 1] == '\n' ==> r[..|r| - |le|] == Replace("\n", le, t[..|t| - 1]))
  {
    if t != "" {
      var front, last := t[..|t| - 1], t[|t| - 1];
      assert t == front + [last];
      LastUnderLE(le, front, last);
      assert t[|t| - 1] == last;
      if last == '\n' {
        DropTail(Replace("\n", le, front), le);
      } else {
        assert last in t;
        OtherTail(Replace("\n", le, front), last, le);
      }
    }
  }

  lemma LastUnderLE(le: string, front: string, last: char)
    ensures Replace("\n", le, front + [last]) == Replace("\n", le, front) + if last == '\n' then le else [last]
  {
    ReplaceCharAppend('\n', le, front, [last]);
    ReplaceOneChar('\n', le, last);
  }

  lemma DropTail(a: string, tail: string)
    ensures (a + tail)[|a + tail| - |tail|..] == tail && (a + tail)[..|a + tail| - |tail|] == a
  {
  }

  lemma OtherTail(a: string, last: char, le: string)
    requires IsLineEnding(le) && last != '\n' && last != '\r'
    ensures var r := a + [last]; !(|r| >= |le| && r[|r| - |le|..] == le)
  {
    var r := a + [last];
    if |r| >= |le| { assert r[|r| - |le|..][|le| - 1] == last; }
  }

  lemma {:induction false} TrimRightAppend(s: string, tail: string)
    requires forall c :: c in tail ==> IsTrimmed(c)
    ensures TrimRight(s + tail) == TrimRight(s)
    decreases |tail|
  {
    if tail == "" {
      assert s + tail == s;
    } else {
      var all := s + tail;
      assert all[|all| - 1] == tail[|tail| - 1];
      assert tail[|tail| - 1] in tail;
      assert all[..|all| - 1] == s + tail[..|tail| - 1];
      TrimRightAppend(s, tail[..|tail| - 1]);
    }
  }

  /** Trailing blanks after a text that starts and ends with none are all that
      `trim` removes. */
  lemma TrimTail(s: string, tail: string)
    requires s != "" && !IsTrimmed(s[0]) && !IsTrimmed(s[|s| - 1])
    requires forall c :: c in tail ==> IsTrimmed(c)
    ensures Trim(s + tail) == s
  {
    assert (s + tail)[0] == s[0];
    assert TrimLeft(s + tail) == s + tail;
    TrimRightAppend(s, tail);
  }

  /** One leading blank is removed. */
  lemma TrimHead(s: string)
    requires s != "" && !IsTrimmed(s[0]) && !IsTrimmed(s[|s| - 1])
    ensures Trim(" " + s) == s
  {
    assert (" " + s)[1..] == s;
    assert TrimLeft(" " + s) == TrimLeft(s) == s;
  }
}
