/** The handful of Python `str` operations the dictionary pipeline relies on,
    written out on `seq<char>`: whitespace, strip, case mapping, split, join,
    `replace` of one character, `str(int)` and `int(str)`. */
module Strings {
  import opened Wrappers

  /** Python's `str.isspace` for a single code point. */
  predicate IsSpaceChar(c: char) {
    || c == ' ' || c == '\t' || c == '\n' || c == '\r' || c == '\U{0B}' || c == '\U{0C}'
    || ('\U{1C}' <= c <= '\U{1F}') || c == '\U{85}' || c == '\U{A0}' || c == '\U{1680}'
    || ('\U{2000}' <= c <= '\U{200A}') || c == '\U{2028}' || c == '\U{2029}'
    || c == '\U{202F}' || c == '\U{205F}' || c == '\U{3000}'
  }

  /** Every character of `s` is whitespace (vacuously true of ""). */
  predicate AllSpace(s: string) {
    forall i :: 0 <= i < |s| ==> IsSpaceChar(s[i])
  }

  /** Python's `s.isspace()`: false on the empty string. */
  predicate IsSpace(s: string) {
    |s| > 0 && AllSpace(s)
  }

  /** Neither end of `s` is whitespace. */
  predicate Trimmed(s: string) {
    |s| > 0 ==> !IsSpaceChar(s[0]) && !IsSpaceChar(s[|s| - 1])
  }

  function StripLeft(s: string): (r: string)
    ensures |r| <= |s|
    ensures |r| > 0 ==> !IsSpaceChar(r[0])
  {
    if |s| > 0 && IsSpaceChar(s[0]) then StripLeft(s[1..]) else s
  }

  /** What `StripLeft` drops is a whitespace prefix; what it keeps is the rest. */
  lemma {:induction false} StripLeftSplits(s: string)
    ensures StripLeft(s) == s[|s| - |StripLeft(s)|..]
    ensures AllSpace(s[..|s| - |StripLeft(s)|])
  {
    if |s| > 0 && IsSpaceChar(s[0]) {
      StripLeftSplits(s[1..]);
      var k := |s| - |StripLeft(s)|;
      assert s[1..][..k - 1] == s[1..k];
      assert s[1..][k - 1..] == s[k..];
    }
  }

  function StripRight(s: string): (r: string)
    ensures |r| <= |s|
    ensures |r| > 0 ==> !IsSpaceChar(r[|r| - 1])
  {
    if |s| > 0 && IsSpaceChar(s[|s| - 1]) then StripRight(s[..|s| - 1]) else s
  }

  /** What `StripRight` drops is a whitespace suffix; what it keeps is the rest. */
  lemma {:induction false} StripRightSplits(s: string)
    ensures StripRight(s) == s[..|StripRight(s)|]
    ensures AllSpace(s[|StripRight(s)|..])
  {
    if |s| > 0 && IsSpaceChar(s[|s| - 1]) {
      var t := s[..|s| - 1];
      StripRightSplits(t);
      var k := |StripRight(s)|;
      assert t[..k] == s[..k];
      assert t[k..] + [s[|s| - 1]] == s[k..];
    }
  }

  /** Python's `s.strip()`: whitespace removed from both ends. */
  function Strip(s: string): (r: string)
    ensures Trimmed(r)
    ensures |r| <= |s|
  {
    var l := StripLeft(s);
    var r := StripRight(l);
    StripRightSplits(l);
    assert |r| > 0 ==> r[0] == l[0];
    r
  }

  lemma {:induction false} StripLeftEmptyIff(s: string)
    ensures StripLeft(s) == "" <==> AllSpace(s)
  {
    if |s| > 0 && IsSpaceChar(s[0]) {
      StripLeftEmptyIff(s[1..]);
      assert AllSpace(s) <==> AllSpace(s[1..]);
    }
  }

  lemma {:induction false} StripRightEmptyIff(s: string)
    ensures StripRight(s) == "" <==> AllSpace(s)
  {
    if |s| > 0 && IsSpaceChar(s[|s| - 1]) {
      StripRightEmptyIff(s[..|s| - 1]);
      assert AllSpace(s) <==> AllSpace(s[..|s| - 1]);
    }
  }

  /** Stripping removes exactly the whitespace: the result is empty iff the input is all whitespace. */
  lemma StripEmptyIff(s: string)
    ensures Strip(s) == "" <==> AllSpace(s)
  {
    var l := StripLeft(s);
    StripLeftEmptyIff(s);
    StripRightEmptyIff(l);
    assert l != "" ==> !AllSpace(l);
  }

  /** A string with no whitespace at either end is its own strip. */
  lemma StripTrimmed(s: string)
    requires Trimmed(s)
    ensures Strip(s) == s
  {
  }

  /** Stripping only removes characters: every character of the result is one of the input's. */
  lemma StripKeeps(s: string)
    ensures forall c :: c in Strip(s) ==> c in s
  {
    var l := StripLeft(s);
    var r := StripRight(l);
    StripLeftSplits(s);
    StripRightSplits(l);
    forall c | c in r ensures c in s {
      var i :| 0 <= i < |r| && r[i] == c;
      assert l[i] == c;
      assert s[|s| - |l| + i] == c;
    }
  }

  lemma StripIdempotent(s: string)
    ensures Strip(Strip(s)) == Strip(s)
  {
    StripTrimmed(Strip(s));
  }

  /** Python's `str.lower` on ASCII and Latin-1 letters; every other code point is unchanged. */
  function LowerChar(c: char): char {
    if 'A' <= c <= 'Z' || ('\U{C0}' <= c <= '\U{DE}' && c != '\U{D7}') then (c as int + 32) as char else c
  }

  /** Python's `str.upper` on ASCII and Latin-1 letters. */
  function UpperChar(c: char): char {
    if 'a' <= c <= 'z' || ('\U{E0}' <= c <= '\U{FE}' && c != '\U{F7}') then (c as int - 32) as char else c
  }

  function Lower(s: string): (r: string)
    ensures |r| == |s|
    ensures forall i :: 0 <= i < |s| ==> r[i] == LowerChar(s[i])
  {
    if s == [] then [] else [LowerChar(s[0])] + Lower(s[1..])
  }

  /** Lower-casing twice is lower-casing once. */
  lemma LowerIdempotent(s: string)
    ensures Lower(Lower(s)) == Lower(s)
  {
    assert forall i :: 0 <= i < |s| ==> Lower(Lower(s))[i] == Lower(s)[i];
  }

  /** Python's `str.capitalize`: first character upper-cased, the rest lower-cased. */
  function Capitalize(s: string): (r: string)
    ensures |r| == |s|
    ensures |s| > 0 ==> r[0] == UpperChar(s[0]) && r[1..] == Lower(s[1..])
  {
    if s == [] then [] else [UpperChar(s[0])] + Lower(s[1..])
  }

  /** Python's `s.replace(a, b)` for single characters `a` and `b`. */
  function ReplaceChar(s: string, a: char, b: char): (r: string)
    ensures |r| == |s|
    ensures forall i :: 0 <= i < |s| ==> r[i] == (if s[i] == a then b else s[i])
  {
    if s == [] then [] else [if s[0] == a then b else s[0]] + ReplaceChar(s[1..], a, b)
  }

  /** Python's `sep.join(parts)`. */
  function Join(parts: seq<string>, sep: string): (r: string)
    ensures |parts| == 0 ==> r == ""
    ensures |parts| == 1 ==> r == parts[0]
    ensures |parts| > 1 ==> |r| >= |parts[0]| + |sep|
  {
    if |parts| == 0 then "" else if |parts| == 1 then parts[0] else parts[0] + sep + Join(parts[1..], sep)
  }

  /** Joining non-empty stripped strings gives a non-empty stripped string, whatever the separator. */
  lemma {:induction false} JoinTrimmed(parts: seq<string>, sep: string)
    requires forall k :: 0 <= k < |parts| ==> |parts[k]| > 0 && Trimmed(parts[k])
    ensures Trimmed(Join(parts, sep))
    ensures |parts| > 0 ==> |Join(parts, sep)| > 0
  {
    if |parts| >= 2 {
      JoinTrimmed(parts[1..], sep);
      var rest := Join(parts[1..], sep);
      var j := parts[0] + sep + rest;
      assert j[0] == parts[0][0];
      assert j[|j| - 1] == rest[|rest| - 1];
    }
  }

  /** Python's `s.split(c)` for a one-character separator: never empty, no piece contains `c`. */
  function Split(s: string, c: char): (r: seq<string>)
    ensures |r| >= 1
    ensures forall k :: 0 <= k < |r| ==> c !in r[k]
  {
    if |s| == 0 then [""]
    else
      var rest := Split(s[1..], c);
      if s[0] == c then [""] + rest else [[s[0]] + rest[0]] + rest[1..]
  }

  /** Joining the pieces of a split with the separator gives back the string. */
  lemma {:induction false} JoinSplit(s: string, c: char)
    ensures Join(Split(s, c), [c]) == s
  {
    if |s| > 0 {
      var rest := Split(s[1..], c);
      JoinSplit(s[1..], c);
      if s[0] == c {
        assert Split(s, c) == [""] + rest;
        assert Join(Split(s, c), [c]) == "" + [c] + Join(rest, [c]);
        assert s == [s[0]] + s[1..];
      } else {
        var r := Split(s, c);
        assert r == [[s[0]] + rest[0]] + rest[1..];
        if |rest| == 1 {
          assert r == [[s[0]] + rest[0]];
        } else {
          assert r[1..] == rest[1..];
          assert Join(rest, [c]) == rest[0] + [c] + Join(rest[1..], [c]);
        }
        assert s == [s[0]] + s[1..];
      }
    }
  }

  /** A string without the separator splits into itself alone. */
  lemma {:induction false} SplitAbsent(s: string, c: char)
    requires c !in s
    ensures Split(s, c) == [s]
  {
    if |s| > 0 {
      assert c !in s[1..];
      SplitAbsent(s[1..], c);
      assert s == [s[0]] + s[1..];
    }
  }

  /** Splitting at the first separator: the first piece is everything before it. */
  lemma {:induction false} SplitAtFirst(a: string, b: string, c: char)
    requires c !in a
    ensures Split(a + [c] + b, c) == [a] + Split(b, c)
  {
    if |a| == 0 {
      assert a + [c] + b == [c] + b;
      assert ([c] + b)[1..] == b;
    } else {
      assert (a + [c] + b)[1..] == a[1..] + [c] + b;
      assert c !in a[1..];
      SplitAtFirst(a[1..], b, c);
      assert a == [a[0]] + a[1..];
    }
  }

  /** The last piece of a split is everything after the last separator. */
  lemma {:induction false} LastPiece(a: string, b: string, c: char)
    requires c !in b
    ensures |Split(a + [c] + b, c)| >= 2
    ensures Split(a + [c] + b, c)[|Split(a + [c] + b, c)| - 1] == b
  {
    if |a| == 0 {
      SplitAbsent(b, c);
      SplitAtFirst(a, b, c);
    } else {
      assert (a + [c] + b)[1..] == a[1..] + [c] + b;
      LastPiece(a[1..], b, c);
    }
  }

  /** A string holding the separator splits into at least two pieces. */
  lemma SplitPresent(s: string, c: char)
    requires c in s
    ensures |Split(s, c)| >= 2
  {
    JoinSplit(s, c);
  }

  /** Splitting a join of separator-free pieces gives back the pieces. */
  lemma {:induction false} SplitJoin(parts: seq<string>, c: char)
    requires |parts| >= 1
    requires forall k :: 0 <= k < |parts| ==> c !in parts[k]
    ensures Split(Join(parts, [c]), c) == parts
  {
    if |parts| == 1 {
      SplitAbsent(parts[0], c);
    } else {
      SplitJoin(parts[1..], c);
      SplitAtFirst(parts[0], Join(parts[1..], [c]), c);
      assert parts == [parts[0]] + parts[1..];
    }
  }

  /** The first piece of a split is the prefix before the first separator. */
  lemma {:induction false} FirstPiece(s: string, c: char)
    ensures Split(s, c)[0] <= s
    ensures |Split(s, c)[0]| < |s| ==> s[|Split(s, c)[0]|] == c
  {
    if |s| > 0 {
      FirstPiece(s[1..], c);
    }
  }

  /** The first piece of `a + t` is the first piece of `a` when `a` already holds the separator. */
  lemma {:induction false} FirstPieceOfLonger(a: string, t: string, c: char)
    requires c in a
    ensures Split(a + t, c)[0] == Split(a, c)[0]
  {
    if a[0] == c {
    } else {
      assert (a + t)[1..] == a[1..] + t;
      FirstPieceOfLonger(a[1..], t, c);
    }
  }

  predicate IsDigit(c: char) {
    '0' <= c <= '9'
  }

  function DigitValue(c: char): nat {
    if IsDigit(c) then c as int - '0' as int else 0
  }

  function DigitChar(d: nat): (c: char)
    requires d < 10
    ensures IsDigit(c) && DigitValue(c) == d
  {
    "0123456789"[d]
  }

  /** Python's `str(n)` for a natural number: decimal digits, most significant first. */
  function NatToString(n: nat): (r: string)
    ensures |r| >= 1
    ensures forall i :: 0 <= i < |r| ==> IsDigit(r[i])
  {
    if n < 10 then [DigitChar(n)] else NatToString(n / 10) + [DigitChar(n % 10)]
  }

  /** Python's `str(i)` for an integer. */
  function IntToString(i: int): string {
    if i < 0 then "-" + NatToString(-i) else NatToString(i)
  }

  /** The digit string Python's `int` accepts: digits, with single underscores only between digits. */
  predicate DecimalLiteral(d: string)
    decreases |d|
  {
    && |d| > 0 && IsDigit(d[|d| - 1])
    && (|d| == 1 ||
        if d[|d| - 2] == '_' then |d| > 2 && DecimalLiteral(d[..|d| - 2]) else DecimalLiteral(d[..|d| - 1]))
  }

  /** The value of a digit string, underscores ignored. */
  function DecimalValue(d: string): nat {
    if |d| == 0 then 0
    else if d[|d| - 1] == '_' then DecimalValue(d[..|d| - 1])
    else DecimalValue(d[..|d| - 1]) * 10 + DigitValue(d[|d| - 1])
  }

  /** Python's `int(s)` in base 10: surrounding whitespace, an optional sign, then a decimal
      literal; `None` stands for the `ValueError` Python raises otherwise. */
  function ParseInt(s: string): Option<int> {
    ParseStripped(Strip(s))
  }

  /** `int` on text with nothing left to strip: an optional sign, then a decimal literal. */
  function ParseStripped(t: string): (r: Option<int>)
    ensures t == "" ==> r.None?
    ensures r.Some? ==> IsDigit(t[|t| - 1])
    ensures r.Some? ==> IsDigit(t[0]) || t[0] == '+' || t[0] == '-'
  {
    if |t| > 0 && (t[0] == '+' || t[0] == '-') then
      var v: int := DecimalValue(t[1..]);
      if DecimalLiteral(t[1..]) then
        assert t[1..][|t| - 2] == t[|t| - 1];
        Some(if t[0] == '-' then -v else v)
      else None
    else if DecimalLiteral(t) then
      DecimalLiteralStartsWithDigit(t);
      Some(DecimalValue(t))
    else None
  }

  lemma {:induction false} NatToStringValue(n: nat)
    ensures DecimalLiteral(NatToString(n))
    ensures DecimalValue(NatToString(n)) == n
  {
    if n >= 10 {
      NatToStringValue(n / 10);
      var p := NatToString(n / 10);
      var r := NatToString(n);
      assert r == p + [DigitChar(n % 10)];
      assert r[..|r| - 1] == p;
    }
  }

  lemma {:induction false} DecimalLiteralStartsWithDigit(d: string)
    requires DecimalLiteral(d)
    ensures IsDigit(d[0])
    decreases |d|
  {
    if |d| > 1 {
      var p := if d[|d| - 2] == '_' then d[..|d| - 2] else d[..|d| - 1];
      DecimalLiteralStartsWithDigit(p);
      assert p[0] == d[0];
    }
  }

  lemma ParseIntLiteral(d: string)
    requires DecimalLiteral(d)
    ensures ParseInt(d) == Some(DecimalValue(d))
  {
    LiteralTrimmed(d);
    ParseStrippedLiteral(d);
  }

  /** Text with nothing to strip and no sign is read as the decimal literal it is. */
  lemma ParseStrippedLiteral(d: string)
    requires DecimalLiteral(d)
    ensures ParseStripped(d) == Some(DecimalValue(d))
  {
    DecimalLiteralStartsWithDigit(d);
    assert !(d[0] == '+' || d[0] == '-');
  }

  /** A decimal literal has nothing to strip. */
  lemma LiteralTrimmed(d: string)
    requires DecimalLiteral(d)
    ensures Strip(d) == d
  {
    DecimalLiteralStartsWithDigit(d);
    StripTrimmed(d);
  }

  lemma ParseIntNegativeLiteral(d: string)
    requires DecimalLiteral(d)
    ensures ParseInt("-" + d) == Some(-(DecimalValue(d) as int))
  {
    NegativeLiteralTrimmed(d);
    ParseStrippedNegative(d);
  }

  /** A minus sign then a decimal literal is read as the literal's negation. */
  lemma ParseStrippedNegative(d: string)
    requires DecimalLiteral(d)
    ensures ParseStripped("-" + d) == Some(-(DecimalValue(d) as int))
  {
    var m := "-" + d;
    assert m[0] == '-' && m[1..] == d;
  }

  /** A minus sign before a decimal literal leaves nothing to strip. */
  lemma NegativeLiteralTrimmed(d: string)
    requires DecimalLiteral(d)
    ensures Strip("-" + d) == "-" + d
  {
    var m := "-" + d;
    assert m[|m| - 1] == d[|d| - 1] && m[0] == '-';
    StripTrimmed(m);
  }

  /** `int(str(i)) == i`: printing an integer and reading it back is the identity. */
  lemma ParseIntToString(i: int)
    ensures ParseInt(IntToString(i)) == Some(i)
  {
    StrippedToString(i);
    StripTrimmed(IntToString(i));
  }

  /** A decimal rendering has nothing to strip and is read back as the integer it renders. */
  lemma StrippedToString(i: int)
    ensures Trimmed(IntToString(i)) && ParseStripped(IntToString(i)) == Some(i)
  {
    var n: nat := if i < 0 then -i else i;
    var d := NatToString(n);
    NatToStringValue(n);
    if i < 0 {
      var m := "-" + d;
      assert IntToString(i) == m;
      assert m[|m| - 1] == d[|d| - 1] && m[0] == '-';
      ParseStrippedNegative(d);
    } else {
      assert IntToString(i) == d;
      DecimalLiteralStartsWithDigit(d);
      ParseStrippedLiteral(d);
    }
  }

  /** A decimal rendering is made of digits and a sign only. */
  lemma IntToStringChars(i: int)
    ensures forall k :: 0 <= k < |IntToString(i)| ==> IsDigit(IntToString(i)[k]) || IntToString(i)[k] == '-'
  {
    var s := IntToString(i);
    if i < 0 {
      assert s == "-" + NatToString(-i);
      assert forall k :: 1 <= k < |s| ==> IsDigit(s[k]);
    }
  }

  /** The text of `s` up to, not including, the first `c`. */
  function TakeUntil(s: string, c: char): (r: string)
    ensures |r| <= |s| && c !in r
    ensures r <= s
  {
    if s == [] || s[0] == c then [] else [s[0]] + TakeUntil(s[1..], c)
  }

  lemma {:induction false} TakeUntilPrefix(a: string, b: string, c: char)
    requires c !in a && |b| > 0 && b[0] == c
    ensures TakeUntil(a + b, c) == a
  {
    if a != [] {
      assert (a + b)[1..] == a[1..] + b;
      TakeUntilPrefix(a[1..], b, c);
    }
  }

  /** The text of `s` after the first `c`; empty when there is none. */
  function DropThrough(s: string, c: char): (r: string)
    ensures |r| < |s| || r == s == ""
  {
    if s == [] then [] else if s[0] == c then s[1..] else DropThrough(s[1..], c)
  }

  /** What follows the first `c` is everything after it. */
  lemma {:induction false} DropThroughPrefix(a: string, b: string, c: char)
    requires c !in a
    ensures DropThrough(a + [c] + b, c) == b
  {
    if a == [] {
      assert a + [c] + b == [c] + b;
    } else {
      assert (a + [c] + b)[1..] == a[1..] + [c] + b;
      DropThroughPrefix(a[1..], b, c);
    }
  }
}
