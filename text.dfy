/**
 * The few Python string operations the web handlers use: `str.upper()`,
 * `str.lower()`, slicing with `[:n]`, `str.split(sep)` with `[-1]`, and
 * formatting an `int` inside an f-string.
 *
 * Case mapping covers the ASCII letters only (see README).
 */
module Text {

  import opened Wrappers

  predicate IsAsciiUpper(c: char) { 'A' <= c <= 'Z' }

  predicate IsAsciiLower(c: char) { 'a' <= c <= 'z' }

  predicate IsDigit(c: char) { '0' <= c <= '9' }

  function UpperChar(c: char): (u: char)
    ensures !IsAsciiLower(u)
    ensures IsAsciiLower(c) ==> u as int == c as int - 32
    ensures !IsAsciiLower(c) ==> u == c
  {
    if IsAsciiLower(c) then (c as int - 32) as char else c
  }

  function LowerChar(c: char): (l: char)
    ensures !IsAsciiUpper(l)
    ensures IsAsciiUpper(c) ==> l as int == c as int + 32
    ensures !IsAsciiUpper(c) ==> l == c
  {
    if IsAsciiUpper(c) then (c as int + 32) as char else c
  }

  /** `s.upper()`: same length, every character mapped on its own, no lower-case letter left. */
  function Upper(s: string): (r: string)
    ensures |r| == |s|
    ensures forall i :: 0 <= i < |s| ==> r[i] == UpperChar(s[i])
    ensures forall i :: 0 <= i < |r| ==> !IsAsciiLower(r[i])
  {
    if s == [] then [] else [UpperChar(s[0])] + Upper(s[1..])
  }

  /** `s.lower()`: same length, every character mapped on its own, no upper-case letter left. */
  function Lower(s: string): (r: string)
    ensures |r| == |s|
    ensures forall i :: 0 <= i < |s| ==> r[i] == LowerChar(s[i])
    ensures forall i :: 0 <= i < |r| ==> !IsAsciiUpper(r[i])
  {
    if s == [] then [] else [LowerChar(s[0])] + Lower(s[1..])
  }

  /** Lower-casing twice is lower-casing once. */
  lemma LowerIdempotent(s: string)
    ensures Lower(Lower(s)) == Lower(s)
  {
  }

  /** A character that is not an upper-case letter occurs in `s.lower()` exactly where it occurs in `s`. */
  lemma LowerKeeps(s: string, c: char)
    requires !IsAsciiUpper(c) && !IsAsciiLower(c)
    ensures c in Lower(s) <==> c in s
  {
    if c in s {
      var i :| 0 <= i < |s| && s[i] == c;
      assert Lower(s)[i] == c;
    }
    if c in Lower(s) {
      var i :| 0 <= i < |Lower(s)| && Lower(s)[i] == c;
      assert s[i] == c;
    }
  }

  /** Python's slice `s[:n]`: the first `n` characters, or all of `s` when it is shorter. */
  function Take(s: string, n: nat): (r: string)
    ensures |r| == if |s| < n then |s| else n
    ensures r <= s
  {
    if |s| < n then s else s[..n]
  }

  /** Python's `sep.join(parts)` for a non-empty list of parts. */
  function Join(parts: seq<string>, sep: char): string
    requires |parts| >= 1
  {
    if |parts| == 1 then parts[0] else parts[0] + [sep] + Join(parts[1..], sep)
  }

  /**
   * Python's `s.split(sep)` for a one-character separator: the pieces between
   * separators, never an empty list (`"".split(".") == [""]`), none holding
   * the separator, and joining them back with `sep` gives `s`.
   */
  function Split(s: string, sep: char): (parts: seq<string>)
    ensures |parts| >= 1
    ensures forall i :: 0 <= i < |parts| ==> sep !in parts[i]
    ensures Join(parts, sep) == s
  {
    if s == [] then [[]]
    else
      var rest := Split(s[1..], sep);
      if s[0] == sep then
        [[]] + rest
      else
        [[s[0]] + rest[0]] + rest[1..]
  }

  /** Splitting a string without the separator gives the string itself as the only piece. */
  lemma {:induction false} SplitNoSep(s: string, sep: char)
    requires sep !in s
    ensures Split(s, sep) == [s]
  {
    if s != [] {
      SplitNoSep(s[1..], sep);
    }
  }

  /** The round trip the other way: splitting pieces joined by `sep` gives the pieces back. */
  lemma {:induction false} SplitJoin(parts: seq<string>, sep: char)
    requires |parts| >= 1
    requires forall i :: 0 <= i < |parts| ==> sep !in parts[i]
    ensures Split(Join(parts, sep), sep) == parts
  {
    if |parts| == 1 {
      SplitNoSep(parts[0], sep);
    } else {
      var tail := parts[1..];
      SplitJoin(tail, sep);
      SplitPrefix(parts[0], Join(tail, sep), sep);
      assert [parts[0]] + tail == parts;
    }
  }

  /** Splitting `a + [sep] + b` with `a` free of `sep` puts `a` first, then the pieces of `b`. */
  lemma {:induction false} SplitPrefix(a: string, b: string, sep: char)
    requires sep !in a
    ensures Split(a + [sep] + b, sep) == [a] + Split(b, sep)
  {
    var s := a + [sep] + b;
    if a == [] {
      assert s[0] == sep && s[1..] == b;
    } else {
      assert s[0] == a[0] && s[1..] == a[1..] + [sep] + b;
      SplitPrefix(a[1..], b, sep);
      var rest := Split(s[1..], sep);
      assert rest[0] == a[1..] && rest[1..] == Split(b, sep);
      assert Split(s, sep) == [[a[0]] + rest[0]] + rest[1..];
      assert [a[0]] + a[1..] == a;
    }
  }

  /** Joining two or more pieces puts a separator right after the first piece. */
  lemma JoinSepAfterFirst(parts: seq<string>, sep: char)
    requires |parts| > 1
    ensures |parts[0]| < |Join(parts, sep)| && Join(parts, sep)[|parts[0]|] == sep
  {
    assert Join(parts, sep) == parts[0] + [sep] + Join(parts[1..], sep);
  }

  function Last(parts: seq<string>): string
    requires |parts| >= 1
  {
    parts[|parts| - 1]
  }

  /**
   * `s.split(sep)[-1]` is the text after the last `sep`: a suffix of `s` that
   * holds no `sep` and is either all of `s` or comes right after a `sep`.
   * Those three facts determine it (see AfterLastSepUnique).
   */
  predicate IsAfterLastSep(t: string, s: string, sep: char)
  {
    && |t| <= |s|
    && s[|s| - |t|..] == t
    && sep !in t
    && (|t| < |s| ==> s[|s| - |t| - 1] == sep)
  }

  lemma {:induction false} LastPieceIsAfterLastSep(s: string, sep: char)
    ensures IsAfterLastSep(Last(Split(s, sep)), s, sep)
  {
    if s != [] {
      var t := s[1..];
      LastPieceIsAfterLastSep(t, sep);
      if s[0] != sep && |Split(t, sep)| == 1 {
        LastPieceWhole(s, sep);
      } else {
        LastPieceOfTail(s, sep);
      }
    }
  }

  /** When `s[0]` is no separator and the rest of `s` has none either, the last piece is all of `s`. */
  lemma LastPieceWhole(s: string, sep: char)
    requires s != [] && s[0] != sep && |Split(s[1..], sep)| == 1
    ensures Last(Split(s, sep)) == s
  {
    var t := s[1..];
    assert Join(Split(t, sep), sep) == Split(t, sep)[0] == t;
    assert [s[0]] + t == s;
  }

  /** Otherwise the last piece of `s` is the last piece of `s[1..]`, and it keeps its place at the end. */
  lemma LastPieceOfTail(s: string, sep: char)
    requires s != [] && !(s[0] != sep && |Split(s[1..], sep)| == 1)
    requires IsAfterLastSep(Last(Split(s[1..], sep)), s[1..], sep)
    ensures IsAfterLastSep(Last(Split(s, sep)), s, sep)
  {
    SplitLastOfTail(s, sep);
    if s[0] != sep {
      LastPieceShorter(s[1..], sep);
    }
    AfterLastSepExtends(Last(Split(s[1..], sep)), s, sep);
  }

  /** Unless `s[0]` starts the only piece, `s` and `s[1..]` end with the same piece. */
  lemma SplitLastOfTail(s: string, sep: char)
    requires s != [] && (s[0] == sep || |Split(s[1..], sep)| > 1)
    ensures Last(Split(s, sep)) == Last(Split(s[1..], sep))
  {
    var rest := Split(s[1..], sep);
    if s[0] == sep {
      assert Split(s, sep) == [[]] + rest;
    } else {
      assert Split(s, sep) == [[s[0]] + rest[0]] + rest[1..];
    }
  }

  /** A string that splits into two or more pieces is longer than its last piece. */
  lemma LastPieceShorter(t: string, sep: char)
    requires |Split(t, sep)| > 1
    requires IsAfterLastSep(Last(Split(t, sep)), t, sep)
    ensures |Last(Split(t, sep))| < |t|
  {
    var rest := Split(t, sep);
    JoinSepAfterFirst(rest, sep);
    assert t[|rest[0]|] == sep;
  }

  /**
   * Text after the last separator of `s[1..]` is still that of `s`, unless
   * it is all of `s[1..]` and `s[0]` is no separator.
   */
  lemma AfterLastSepExtends(last: string, s: string, sep: char)
    requires s != [] && IsAfterLastSep(last, s[1..], sep)
    requires |last| < |s| - 1 || s[0] == sep
    ensures IsAfterLastSep(last, s, sep)
  {
    var t := s[1..];
    var k := |s| - |last|;
    assert t[k - 1..] == last;
    forall i | 0 <= i < |last|
      ensures s[k..][i] == last[i]
    {
      assert s[k + i] == t[k - 1 + i];
    }
    assert s[k..] == last;
    if k > 1 {
      assert s[k - 1] == t[k - 2];
    }
  }

  lemma AfterLastSepUnique(t1: string, t2: string, s: string, sep: char)
    requires IsAfterLastSep(t1, s, sep) && IsAfterLastSep(t2, s, sep)
    ensures t1 == t2
  {
  }

  /** The text after the last `sep` of `a + [sep] + b`, with `b` free of `sep`, is `b`. */
  lemma LastPieceAfterSep(a: string, b: string, sep: char)
    requires sep !in b
    ensures Last(Split(a + [sep] + b, sep)) == b
  {
    var s := a + [sep] + b;
    LastPieceIsAfterLastSep(s, sep);
    assert s[|s| - |b|..] == b;
    assert IsAfterLastSep(b, s, sep);
    AfterLastSepUnique(Last(Split(s, sep)), b, s, sep);
  }

  function DigitChar(d: nat): (c: char)
    requires d < 10
    ensures IsDigit(c)
  {
    "0123456789"[d]
  }

  function DigitValue(c: char): (d: nat)
    requires IsDigit(c)
    ensures d < 10
  {
    c as int - '0' as int
  }

  /** `f"{n}"` for `n >= 0`: decimal digits, most significant first, no leading zero. */
  function NatToDecimal(n: nat): (s: string)
    ensures |s| >= 1
    ensures forall i :: 0 <= i < |s| ==> IsDigit(s[i])
    ensures s[0] == '0' ==> n == 0
  {
    if n < 10 then [DigitChar(n)] else NatToDecimal(n / 10) + [DigitChar(n % 10)]
  }

  /** The value of a string of decimal digits. */
  function DecimalValue(s: string): nat
    requires forall i :: 0 <= i < |s| ==> IsDigit(s[i])
  {
    if s == [] then 0 else 10 * DecimalValue(s[..|s| - 1]) + DigitValue(s[|s| - 1])
  }

  lemma {:induction false} DecimalRoundTrip(n: nat)
    ensures DecimalValue(NatToDecimal(n)) == n
  {
    var s := NatToDecimal(n);
    if n >= 10 {
      DecimalRoundTrip(n / 10);
      assert s[..|s| - 1] == NatToDecimal(n / 10);
    }
  }

  /** `f"{n}"` for any `int`: a minus sign before the digits of `-n` when `n` is negative. */
  function IntToDecimal(n: int): (s: string)
    ensures |s| >= 1
    ensures forall i :: 0 <= i < |s| ==> IsDigit(s[i]) || (i == 0 && s[i] == '-')
    ensures '.' !in s && '_' !in s
    ensures s[0] == '-' <==> n < 0
  {
    if n < 0 then "-" + NatToDecimal(-n) else NatToDecimal(n)
  }

  /** The inverse of IntToDecimal on the strings it produces. */
  function ParseInt(s: string): (r: Option<int>)
  {
    if |s| >= 2 && s[0] == '-' && forall i :: 1 <= i < |s| ==> IsDigit(s[i]) then
      var magnitude: int := DecimalValue(s[1..]); Some(-magnitude)
    else if |s| >= 1 && forall i :: 0 <= i < |s| ==> IsDigit(s[i]) then
      Some(DecimalValue(s))
    else
      None
  }

  lemma IntToDecimalRoundTrip(n: int)
    ensures ParseInt(IntToDecimal(n)) == Some(n)
  {
    DecimalRoundTrip(if n < 0 then -n else n);
    if n < 0 {
      ParseNegative(NatToDecimal(-n));
    } else {
      ParseDigits(NatToDecimal(n));
    }
  }

  /** A minus sign followed by digits parses as the negated value of the digits. */
  lemma ParseNegative(digits: string)
    requires |digits| >= 1 && forall i :: 0 <= i < |digits| ==> IsDigit(digits[i])
    ensures ParseInt("-" + digits) == Some(-(DecimalValue(digits) as int))
  {
    var s := "-" + digits;
    assert s[1..] == digits;
    forall i | 1 <= i < |s|
      ensures IsDigit(s[i])
    {
      assert s[i] == digits[i - 1];
    }
  }

  /** A string of digits parses as its value. */
  lemma ParseDigits(digits: string)
    requires |digits| >= 1 && forall i :: 0 <= i < |digits| ==> IsDigit(digits[i])
    ensures ParseInt(digits) == Some(DecimalValue(digits))
  {
    assert digits[0] != '-';
  }
}
