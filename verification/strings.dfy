/**
 The string primitives the dashboard relies on, as JavaScript defines them:
 `trim`, `startsWith`, `split` on one character, the `<` order on strings,
 `String(year)` and `parseInt` without a radix.
 */
module Strings {
  import opened Wrappers

  /**
   The characters `String.prototype.trim` removes, apart from the range
   U+2000 to U+200A that `IsSpace` adds: the ASCII blanks and line breaks,
   the no-break and other Unicode space separators, the line and paragraph
   separators, and the byte order mark.
   */
  const SpaceChars: set<char> := {
    ' ', '\t', '\n', '\r', '\U{000B}', '\U{000C}', '\U{00A0}', '\U{1680}',
    '\U{2028}', '\U{2029}', '\U{202F}', '\U{205F}', '\U{3000}', '\U{FEFF}'
  }

  /** A character `String.prototype.trim` removes. */
  predicate IsSpace(c: char) {
    c in SpaceChars || '\U{2000}' <= c <= '\U{200A}'
  }

  /** A string with no whitespace at either end. */
  predicate IsTrimmed(s: string) {
    s == [] || (!IsSpace(s[0]) && !IsSpace(s[|s| - 1]))
  }

  /** A string made of whitespace only (the empty string included). */
  predicate IsBlank(s: string) {
    forall i :: 0 <= i < |s| ==> IsSpace(s[i])
  }

  /** Drops the longest all-whitespace prefix. */
  function TrimStart(s: string): (r: string)
    ensures |r| <= |s| && r == s[|s| - |r|..]
    ensures forall i :: 0 <= i < |s| - |r| ==> IsSpace(s[i])
    ensures r == [] || !IsSpace(r[0])
  {
    if s != [] && IsSpace(s[0]) then TrimStart(s[1..]) else s
  }

  /** Drops the longest all-whitespace suffix. */
  function TrimEnd(s: string): (r: string)
    ensures |r| <= |s| && r == s[..|r|]
    ensures forall i :: |r| <= i < |s| ==> IsSpace(s[i])
    ensures r == [] || !IsSpace(r[|r| - 1])
  {
    if s != [] && IsSpace(s[|s| - 1]) then TrimEnd(s[..|s| - 1]) else s
  }

  /** `s.trim()`. */
  function Trim(s: string): (r: string)
    ensures IsTrimmed(r)
    ensures IsTrimmed(s) ==> r == s
  {
    var t := TrimStart(s);
    var r := TrimEnd(t);
    assert r != [] ==> r[0] == t[0];
    assert IsTrimmed(s) && s != [] ==> r == s by {
      if IsTrimmed(s) && s != [] {
        assert t == s;
        assert r == s;
      }
    }
    r
  }

  /**
   Trimming keeps a contiguous middle part of the string and removes only
   whitespace on either side of it.
   */
  lemma TrimIsMiddle(s: string)
    ensures var r, lo := Trim(s), |s| - |TrimStart(s)|;
      && SliceAt(r, s, lo)
      && (forall i :: 0 <= i < lo ==> IsSpace(s[i]))
      && (forall i :: lo + |r| <= i < |s| ==> IsSpace(s[i]))
  {
    TrimMiddlePart(s);
    TrimRightPart(s);
  }

  lemma TrimMiddlePart(s: string)
    ensures SliceAt(Trim(s), s, |s| - |TrimStart(s)|)
  {
    TrimUnfold(s);
    StartEndSlice(s);
  }



  lemma TrimUnfold(s: string)
    ensures Trim(s) == TrimEnd(TrimStart(s))
  {
  }

  /** `r` occurs in `s` at `lo`. */
  predicate SliceAt<T(==)>(r: seq<T>, s: seq<T>, lo: int) {
    0 <= lo && lo + |r| <= |s| && r == s[lo..lo + |r|]
  }

  lemma StartEndSlice(s: string)
    ensures var t := TrimStart(s); SliceAt(TrimEnd(t), s, |s| - |t|)
  {
    var t := TrimStart(s);
    var lo := |s| - |t|;
    assert t == s[lo..];
    var r := TrimEnd(t);
    assert r == t[..|r|];
    SliceOfSlice(s, t, r, lo);
  }

  lemma SliceOfSlice<T>(s: seq<T>, t: seq<T>, r: seq<T>, lo: nat)
    requires lo <= |s| && t == s[lo..] && |r| <= |t| && r == t[..|r|]
    ensures SliceAt(r, s, lo)
  {
  }

  lemma TrimRightPart(s: string)
    ensures var r, lo := Trim(s), |s| - |TrimStart(s)|;
      forall i :: lo + |r| <= i < |s| ==> IsSpace(s[i])
  {
    var t := TrimStart(s);
    TrimUnfold(s);
    TailHolds(s, t, TrimEnd(t), |s| - |t|, IsSpace);
  }

  /** What holds past a prefix `r` of the suffix `t = s[lo..]` holds past `lo + |r|` in `s`. */
  lemma TailHolds<T>(s: seq<T>, t: seq<T>, r: seq<T>, lo: nat, p: T -> bool)
    requires lo <= |s| && t == s[lo..] && |r| <= |t|
    requires forall i :: |r| <= i < |t| ==> p(t[i])
    ensures forall i :: lo + |r| <= i < |s| ==> p(s[i])
  {
    forall i | lo + |r| <= i < |s| ensures p(s[i]) {
      assert s[i] == t[i - lo];
    }
  }


  /** The trimmed string is empty exactly when the string is all whitespace. */
  lemma TrimBlank(s: string)
    ensures Trim(s) == [] <==> IsBlank(s)
  {
    TrimIsMiddle(s);
  }

  /** Trimming adds no character. */
  lemma TrimKeepsChars(s: string, c: char)
    ensures c in Trim(s) ==> c in s
  {
    TrimIsMiddle(s);
  }

  /** `s.startsWith(p)`. */
  predicate StartsWith(s: string, p: string) {
    |p| <= |s| && s[..|p|] == p
  }

  /** JavaScript's `a < b` on strings: lexicographic order, a proper prefix first. */
  predicate StrLt(a: string, b: string) {
    if a == [] then b != []
    else if b == [] then false
    else if a[0] != b[0] then a[0] < b[0]
    else StrLt(a[1..], b[1..])
  }

  /** `a <= b` on strings. */
  predicate StrLe(a: string, b: string) {
    a == b || StrLt(a, b)
  }

  lemma {:induction false} StrLtIrreflexive(a: string)
    ensures !StrLt(a, a)
  {
    if a != [] {
      StrLtIrreflexive(a[1..]);
    }
  }

  lemma {:induction false} StrLtTransitive(a: string, b: string, c: string)
    requires StrLt(a, b) && StrLt(b, c)
    ensures StrLt(a, c)
  {
    if a != [] && b != [] && c != [] && a[0] == b[0] && b[0] == c[0] {
      StrLtTransitive(a[1..], b[1..], c[1..]);
    }
  }

  /** Any two different strings are ordered one way or the other. */
  lemma {:induction false} StrLtTotal(a: string, b: string)
    ensures a == b || StrLt(a, b) || StrLt(b, a)
  {
    if a != [] && b != [] && a[0] == b[0] {
      StrLtTotal(a[1..], b[1..]);
      if a[1..] == b[1..] {
        assert a == [a[0]] + a[1..] && b == [b[0]] + b[1..];
      }
    }
  }

  lemma StrLtAsymmetric(a: string, b: string)
    requires StrLt(a, b)
    ensures !StrLt(b, a)
  {
    if StrLt(b, a) {
      StrLtTransitive(a, b, a);
      StrLtIrreflexive(a);
    }
  }

  /** `!(b < a)` is `a <= b`. */
  lemma NotLtIsLe(a: string, b: string)
    ensures !StrLt(b, a) <==> StrLe(a, b)
  {
    StrLtTotal(a, b);
    if StrLt(a, b) {
      StrLtAsymmetric(a, b);
    }
    StrLtIrreflexive(a);
  }

  /** The parts of `parts` with `sep` between each pair (`Array.prototype.join`). */
  function Join(parts: seq<string>, sep: char): string {
    if |parts| == 0 then ""
    else if |parts| == 1 then parts[0]
    else parts[0] + [sep] + Join(parts[1..], sep)
  }

  /** `s.split(sep)` for a one-character separator. */
  function SplitOn(s: string, sep: char): (parts: seq<string>)
    ensures |parts| >= 1
    ensures forall p <- parts :: sep !in p
    ensures Join(parts, sep) == s
  {
    if s == [] then [""]
    else
      var rest := SplitOn(s[1..], sep);
      if s[0] == sep then
        assert s == [sep] + s[1..];
        [""] + rest
      else
        var parts := [[s[0]] + rest[0]] + rest[1..];
        assert parts[1..] == rest[1..];
        assert s == [s[0]] + s[1..];
        parts
  }

  lemma {:induction false} SplitOnPrefix(p: string, t: string, sep: char)
    requires sep !in p
    ensures SplitOn(p + t, sep) == [p + SplitOn(t, sep)[0]] + SplitOn(t, sep)[1..]
  {
    if p != [] {
      assert (p + t)[1..] == p[1..] + t;
      SplitOnPrefix(p[1..], t, sep);
      assert [p[0]] + (p[1..] + SplitOn(t, sep)[0]) == p + SplitOn(t, sep)[0];
    } else {
      var st := SplitOn(t, sep);
      assert p + t == t;
      assert p + st[0] == st[0];
      assert [st[0]] + st[1..] == st;
    }
  }

  /** Splitting a joined sequence gives the parts back when no part holds the separator. */
  lemma {:induction false} SplitJoin(parts: seq<string>, sep: char)
    requires |parts| >= 1
    requires forall p <- parts :: sep !in p
    ensures SplitOn(Join(parts, sep), sep) == parts
  {
    if |parts| == 1 {
      SplitOnPrefix(parts[0], "", sep);
      assert parts[0] + "" == parts[0];
    } else {
      SplitJoin(parts[1..], sep);
      SplitJoinStep(parts[0], Join(parts[1..], sep), parts[1..], sep);
      assert parts == [parts[0]] + parts[1..];
    }
  }

  /** A part without the separator, then the separator, then text that splits into `ps`. */
  lemma SplitJoinStep(p: string, rest: string, ps: seq<string>, sep: char)
    requires sep !in p && SplitOn(rest, sep) == ps
    ensures SplitOn(p + [sep] + rest, sep) == [p] + ps
  {
    var tail := [sep] + rest;
    var st := SplitOn(tail, sep);
    assert st == [""] + ps by {
      assert tail[0] == sep && tail[1..] == rest;
    }
    assert p + [sep] + rest == p + tail;
    SplitOnPrefix(p, tail, sep);
    assert [p + st[0]] + st[1..] == [p] + ps by {
      assert st[0] == "" && st[1..] == ps;
      assert p + "" == p;
    }
  }

  lemma {:induction false} JoinSnoc(parts: seq<string>, p: string, sep: char)
    requires |parts| >= 1
    ensures Join(parts + [p], sep) == Join(parts, sep) + [sep] + p
  {
    if |parts| > 1 {
      assert (parts + [p])[1..] == parts[1..] + [p];
      JoinSnoc(parts[1..], p, sep);
    }
  }

  /** Every character of a joined string is a separator or comes from a part. */
  lemma {:induction false} JoinChars(parts: seq<string>, sep: char, c: char)
    requires c in Join(parts, sep)
    ensures c == sep || exists p <- parts :: c in p
  {
    if |parts| > 1 {
      if c !in parts[0] && c != sep {
        JoinChars(parts[1..], sep, c);
      }
    }
  }

  lemma JoinHead(parts: seq<string>, sep: char)
    requires |parts| >= 1
    ensures StartsWith(Join(parts, sep), parts[0])
  {
  }

  lemma {:induction false} JoinLast(parts: seq<string>, sep: char)
    requires |parts| >= 1
    ensures var j := Join(parts, sep); var l := parts[|parts| - 1];
      |l| <= |j| && j[|j| - |l|..] == l
  {
    if |parts| > 1 {
      JoinLast(parts[1..], sep);
    }
  }

  predicate IsDigit(c: char) {
    '0' <= c <= '9'
  }

  /** A decimal digit is not whitespace. */
  lemma DigitNotSpace(c: char)
    requires IsDigit(c)
    ensures !IsSpace(c)
  {
  }

  predicate AllDigits(s: string) {
    forall i :: 0 <= i < |s| ==> IsDigit(s[i])
  }

  function DigitValue(c: char): nat
    requires IsDigit(c)
  {
    (c as int) - ('0' as int)
  }

  function DigitChar(d: nat): (c: char)
    requires d < 10
    ensures IsDigit(c) && DigitValue(c) == d
  {
    (('0' as int) + d) as char
  }

  function Pow(b: nat, n: nat): nat {
    if n == 0 then 1 else b * Pow(b, n - 1)
  }

  /** The value of a run of decimal digits, most significant first. */
  function DecimalValue(ds: string): (v: nat)
    requires AllDigits(ds)
    ensures v < Pow(10, |ds|)
  {
    if ds == [] then 0
    else 10 * DecimalValue(ds[..|ds| - 1]) + DigitValue(ds[|ds| - 1])
  }

  predicate IsHexDigit(c: char) {
    IsDigit(c) || ('a' <= c <= 'f') || ('A' <= c <= 'F')
  }

  predicate AllHexDigits(s: string) {
    forall i :: 0 <= i < |s| ==> IsHexDigit(s[i])
  }

  function HexDigitValue(c: char): (v: nat)
    requires IsHexDigit(c)
    ensures v < 16
  {
    if IsDigit(c) then DigitValue(c)
    else if 'a' <= c <= 'f' then (c as int) - ('a' as int) + 10
    else (c as int) - ('A' as int) + 10
  }

  function HexValue(ds: string): (v: nat)
    requires AllHexDigits(ds)
    ensures v < Pow(16, |ds|)
  {
    if ds == [] then 0
    else 16 * HexValue(ds[..|ds| - 1]) + HexDigitValue(ds[|ds| - 1])
  }

  /** The longest prefix of `s` made of decimal digits. */
  function DigitRun(s: string): (r: string)
    ensures AllDigits(r) && StartsWith(s, r)
    ensures |r| < |s| ==> !IsDigit(s[|r|])
  {
    if s != [] && IsDigit(s[0]) then [s[0]] + DigitRun(s[1..]) else ""
  }

  /** The longest prefix of `s` made of hexadecimal digits. */
  function HexRun(s: string): (r: string)
    ensures AllHexDigits(r) && StartsWith(s, r)
    ensures |r| < |s| ==> !IsHexDigit(s[|r|])
  {
    if s != [] && IsHexDigit(s[0]) then [s[0]] + HexRun(s[1..]) else ""
  }
  /** The digits after an optional sign: a `0x`/`0X` prefix selects base 16. */
  function UnsignedValue(u: string): Option<nat> {
    if |u| >= 2 && u[0] == '0' && (u[1] == 'x' || u[1] == 'X') then
      var hs := HexRun(u[2..]);
      if hs == [] then None else Some(HexValue(hs))
    else
      var ds := DigitRun(u);
      if ds == [] then None else Some(DecimalValue(ds))
  }

  /**
   `parseInt(s)` with no radix: leading whitespace is skipped, one sign is
   read, and the longest run of digits that follows is the value; no digit at
   all is `NaN`, here None.
   */
  function ParseInt(s: string): Option<int> {
    var t := TrimStart(s);
    var negative := |t| > 0 && t[0] == '-';
    var u := if |t| > 0 && (t[0] == '-' || t[0] == '+') then t[1..] else t;
    match UnsignedValue(u)
    case None => None
    case Some(v) => Some(if negative then -(v as int) else v)
  }

  /** `String(y)` for a four-digit year. */
  function YearString(y: int): (s: string)
    requires 1000 <= y <= 9999
    ensures |s| == 4 && AllDigits(s) && s[0] != '0'
    ensures DecimalValue(s) == y
  {
    YearDigits(y);
    var s := [DigitChar(y / 10 / 10 / 10), DigitChar(y / 10 / 10 % 10), DigitChar(y / 10 % 10), DigitChar(y % 10)];
    DecimalValueOfFour(s);
    s
  }

  /** The four decimal digits of a four-digit number, peeled one division by ten at a time. */
  lemma YearDigits(y: int)
    requires 1000 <= y <= 9999
    ensures 1 <= y / 10 / 10 / 10 < 10
    ensures y == 1000 * (y / 10 / 10 / 10) + 100 * (y / 10 / 10 % 10) + 10 * (y / 10 % 10) + y % 10
  {
    var q1 := y / 10;
    var q2 := q1 / 10;
    assert y == 10 * q1 + y % 10;
    assert q1 == 10 * q2 + q1 % 10;
    assert q2 == 10 * (q2 / 10) + q2 % 10;
    assert 100 <= q1 <= 999;
    assert 10 <= q2 <= 99;
  }

  lemma DecimalValueOfFour(s: string)
    requires |s| == 4 && AllDigits(s)
    ensures DecimalValue(s) == 1000 * DigitValue(s[0]) + 100 * DigitValue(s[1]) + 10 * DigitValue(s[2]) + DigitValue(s[3])
  {
    var s3, s2, s1 := s[..3], s[..2], s[..1];
    assert s3[..2] == s2 && s2[..1] == s1 && s1[..0] == [];
    assert DecimalValue(s1) == DigitValue(s[0]);
    assert DecimalValue(s2) == 10 * DigitValue(s[0]) + DigitValue(s[1]);
    assert DecimalValue(s3) == 100 * DigitValue(s[0]) + 10 * DigitValue(s[1]) + DigitValue(s[2]);
  }

  lemma DigitCharOfValue(c: char)
    requires IsDigit(c)
    ensures DigitChar(DigitValue(c)) == c
  {
  }

  lemma FourDigitArithmetic(d0: nat, d1: nat, d2: nat, d3: nat)
    requires d0 < 10 && d1 < 10 && d2 < 10 && d3 < 10
    ensures var y := 1000 * d0 + 100 * d1 + 10 * d2 + d3;
      y / 10 / 10 / 10 == d0 && y / 10 / 10 % 10 == d1 && y / 10 % 10 == d2 && y % 10 == d3
  {
    var y := 1000 * d0 + 100 * d1 + 10 * d2 + d3;
    var q1, q2 := 100 * d0 + 10 * d1 + d2, 10 * d0 + d1;
    assert y == 10 * q1 + d3;
    assert y / 10 == q1 && y % 10 == d3;
    assert q1 == 10 * q2 + d2;
    assert q1 / 10 == q2 && q1 % 10 == d2;
    assert q2 / 10 == d0 && q2 % 10 == d1;
  }

  /** A four-digit string with no leading zero is the decimal spelling of its own value. */
  lemma YearStringOfValue(s: string)
    requires |s| == 4 && AllDigits(s) && s[0] != '0'
    ensures 1000 <= DecimalValue(s) <= 9999
    ensures YearString(DecimalValue(s)) == s
  {
    DecimalValueOfFour(s);
    var d0, d1, d2, d3 := DigitValue(s[0]), DigitValue(s[1]), DigitValue(s[2]), DigitValue(s[3]);
    FourDigitArithmetic(d0, d1, d2, d3);
    DigitCharOfValue(s[0]);
    DigitCharOfValue(s[1]);
    DigitCharOfValue(s[2]);
    DigitCharOfValue(s[3]);
    assert s == [s[0], s[1], s[2], s[3]];
  }

  /** Digits after a sign, read from at most four characters, reach 1000 only as four decimal digits. */
  lemma UnsignedOfShort(u: string)
    requires |u| <= 4
    ensures UnsignedValue(u).Some? && UnsignedValue(u).value >= 1000 ==>
      |u| == 4 && AllDigits(u) && DecimalValue(u) == UnsignedValue(u).value
  {
    if |u| >= 2 && u[0] == '0' && (u[1] == 'x' || u[1] == 'X') {
      var hs := HexRun(u[2..]);
      assert Pow(16, |hs|) <= 256 by {
        assert |hs| == 0 || |hs| == 1 || |hs| == 2;
        assert Pow(16, 0) == 1 && Pow(16, 1) == 16 && Pow(16, 2) == 256;
      }
    } else {
      var ds := DigitRun(u);
      if |ds| < 4 {
        assert Pow(10, |ds|) <= 1000 by {
          assert |ds| == 0 || |ds| == 1 || |ds| == 2 || |ds| == 3;
          assert Pow(10, 0) == 1 && Pow(10, 1) == 10 && Pow(10, 2) == 100 && Pow(10, 3) == 1000;
        }
      } else {
        assert ds == u;
      }
    }
  }

  /**
   A `parseInt` of at most four characters that reaches 1000 read exactly four
   decimal digits and nothing else.
   */
  lemma ParseIntOfShortYear(s: string)
    requires |s| <= 4
    ensures ParseInt(s).Some? && ParseInt(s).value >= 1000 ==>
      |s| == 4 && AllDigits(s) && DecimalValue(s) == ParseInt(s).value
  {
    if ParseInt(s).Some? && ParseInt(s).value >= 1000 {
      LargeParseUnsigned(s);
      UnsignedOfShort(s);
    }
  }

  /** A text of at most four characters that reads as 1000 or more has no blank and no sign. */
  lemma LargeParseUnsigned(s: string)
    requires |s| <= 4 && ParseInt(s).Some? && ParseInt(s).value >= 1000
    ensures UnsignedValue(s) == ParseInt(s)
  {
    var t := TrimStart(s);
    var signed := |t| > 0 && (t[0] == '-' || t[0] == '+');
    var u := if signed then t[1..] else t;
    assert |u| <= |t| <= |s|;
    UnsignedOfShort(u);
    assert UnsignedValue(u).Some?;
    var v := UnsignedValue(u).value;
    assert ParseInt(s).value == if |t| > 0 && t[0] == '-' then -(v as int) else v;
    assert v >= 1000;
    assert |u| == 4;
    assert !signed;
    assert u == t && t == s[|s| - |t|..] && |t| == |s|;
    assert t == s;
  }



  lemma DigitRunOfDigits(s: string)
    requires AllDigits(s)
    ensures DigitRun(s) == s
  {
    if s != [] {
      DigitRunOfDigits(s[1..]);
    }
  }

  lemma ParseYearString(y: int)
    requires 1000 <= y <= 9999
    ensures ParseInt(YearString(y)) == Some(y)
  {
    var s := YearString(y);
    assert IsDigit(s[0]) && !IsSpace(s[0]) && s[0] != '-' && s[0] != '+';
    assert TrimStart(s) == s;
    DigitRunOfDigits(s);
    assert !(s[0] == '0');
    assert UnsignedValue(s) == Some(DecimalValue(s));
  }

  /** `date.substring(0, 4)`: the first four characters, or all of a shorter text. */
  function YearPrefix(date: string): string {
    date[..if |date| < 4 then |date| else 4]
  }

  /**
   For a four-digit year, reading the first four characters of a date with
   `parseInt` gives that year exactly when the date starts with its spelling.
   */
  lemma ParseYearPrefix(date: string, y: int)
    requires 1000 <= y <= 9999
    ensures ParseInt(YearPrefix(date)) == Some(y) <==> StartsWith(date, YearString(y))
  {
    var s := YearPrefix(date);
    var ys := YearString(y);
    if StartsWith(date, ys) {
      assert s == ys;
      ParseYearString(y);
    }
    ParseIntOfShortYear(s);
    if ParseInt(s) == Some(y) {
      if s[0] == '0' {
        DecimalValueOfFour(s);
      } else {
        YearStringOfValue(s);
      }
    }
  }
}
