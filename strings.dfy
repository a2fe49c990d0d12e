/**
 * The JavaScript string primitives the core relies on, over `string` (a
 * sequence of characters): `startsWith`, `split(sep)`, `trim`, `join`,
 * `replace` of a first occurrence, `includes`, `toLowerCase` (ASCII letters
 * only) and the decimal rendering of an integer inside a template string.
 */
module Strings {

  /** `s.startsWith(prefix)`. */
  predicate StartsWith(s: string, prefix: string) {
    |prefix| <= |s| && s[..|prefix|] == prefix
  }

  /**
   * `s.split(sep)[0]`: the longest prefix of `s` free of `sep`. The three
   * ensures together determine the result uniquely.
   */
  function BeforeFirst(s: string, sep: char): (r: string)
    ensures sep !in r
    ensures r <= s
    ensures |r| < |s| ==> s[|r|] == sep
  {
    if s == [] || s[0] == sep then []
    else [s[0]] + BeforeFirst(s[1..], sep)
  }

  /** `s.split(sep)`: the maximal separator-free pieces, at least one. */
  function Split(s: string, sep: char): (parts: seq<string>)
    ensures |parts| >= 1 && parts[0] == BeforeFirst(s, sep)
    ensures forall k :: 0 <= k < |parts| ==> sep !in parts[k]
    decreases |s|
  {
    var h := BeforeFirst(s, sep);
    if |h| == |s| then
      assert h == s;
      [s]
    else [h] + Split(s[|h| + 1..], sep)
  }

  /** Joining the pieces with the separator gives back the string. */
  lemma {:induction false} SplitJoin(s: string, sep: char)
    ensures Join(Split(s, sep), [sep]) == s
    decreases |s|
  {
    var h := BeforeFirst(s, sep);
    if |h| < |s| {
      var rest := s[|h| + 1..];
      var tail := Split(rest, sep);
      assert s == h + [sep] + rest by {
        assert s == s[..|h|] + [s[|h|]] + rest;
      }
      calc {
        Join(Split(s, sep), [sep]);
        Join([h] + tail, [sep]);
        { assert ([h] + tail)[1..] == tail; }
        h + [sep] + Join(tail, [sep]);
        { SplitJoin(rest, sep); }
        h + [sep] + rest;
      }
    } else {
      assert Split(s, sep) == [s];
    }
  }

  /** A string without the separator is a single piece. */
  lemma SplitNoSep(s: string, sep: char)
    requires sep !in s
    ensures Split(s, sep) == [s]
  {
    BeforeFirstNoSep(s, sep);
  }

  /** The first piece of `x + sep + y` is `x` when `x` holds no separator. */
  lemma SplitOfJoined(x: string, sep: char, y: string)
    requires sep !in x
    ensures Split(x + [sep] + y, sep) == [x] + Split(y, sep)
  {
    var s := x + [sep] + y;
    BeforeFirstOfJoined(x, sep, y);
    assert s[|x| + 1..] == y;
  }

  /** A string without the separator is its own first piece. */
  lemma {:induction false} BeforeFirstNoSep(s: string, sep: char)
    requires sep !in s
    ensures BeforeFirst(s, sep) == s
  {
    if s != [] {
      assert s[0] != sep;
      assert sep !in s[1..] by { assert forall k :: 0 <= k < |s| - 1 ==> s[1..][k] == s[k + 1]; }
      BeforeFirstNoSep(s[1..], sep);
    }
  }

  /** `(x + sep + y).split(sep)[0] == x` when `x` holds no separator. */
  lemma {:induction false} BeforeFirstOfJoined(x: string, sep: char, y: string)
    requires sep !in x
    ensures BeforeFirst(x + [sep] + y, sep) == x
  {
    var s := x + [sep] + y;
    if x == [] {
      assert s[0] == sep;
    } else {
      assert s[0] == x[0] != sep;
      assert s[1..] == x[1..] + [sep] + y;
      assert sep !in x[1..] by { assert forall k :: 0 <= k < |x| - 1 ==> x[1..][k] == x[k + 1]; }
      BeforeFirstOfJoined(x[1..], sep, y);
      assert x == [x[0]] + x[1..];
    }
  }

  /** Taking the first piece twice changes nothing. */
  lemma BeforeFirstIdempotent(s: string, sep: char)
    ensures BeforeFirst(BeforeFirst(s, sep), sep) == BeforeFirst(s, sep)
  {
    BeforeFirstNoSep(BeforeFirst(s, sep), sep);
  }

  /** The characters `String.prototype.trim` removes: WhiteSpace and LineTerminator. */
  predicate IsJsSpace(c: char) {
    c == '\t' || c == '\n' || c == '\U{B}' || c == '\U{C}' || c == '\r' || c == ' '
    || c == '\U{A0}' || c == '\U{1680}' || ('\U{2000}' <= c <= '\U{200A}')
    || c == '\U{2028}' || c == '\U{2029}' || c == '\U{202F}' || c == '\U{205F}'
    || c == '\U{3000}' || c == '\U{FEFF}'
  }

  /** The number of leading white-space characters. */
  function LeadingSpace(s: string): (n: nat)
    ensures n <= |s|
  {
    if s != [] && IsJsSpace(s[0]) then 1 + LeadingSpace(s[1..]) else 0
  }

  /** The index where the trailing white space begins. */
  function TrailingStart(s: string): (n: nat)
    ensures n <= |s|
  {
    if s != [] && IsJsSpace(s[|s| - 1]) then TrailingStart(s[..|s| - 1]) else |s|
  }

  /** The leading run is white space and stops at the first other character. */
  lemma {:induction false} LeadingSpaceSpec(s: string)
    ensures forall k :: 0 <= k < LeadingSpace(s) ==> IsJsSpace(s[k])
    ensures LeadingSpace(s) < |s| ==> !IsJsSpace(s[LeadingSpace(s)])
  {
    if s != [] && IsJsSpace(s[0]) {
      LeadingSpaceSpec(s[1..]);
    }
  }

  /** The trailing run is white space and starts after the last other character. */
  lemma {:induction false} TrailingStartSpec(s: string)
    ensures forall k :: TrailingStart(s) <= k < |s| ==> IsJsSpace(s[k])
    ensures TrailingStart(s) > 0 ==> !IsJsSpace(s[TrailingStart(s) - 1])
  {
    if s != [] && IsJsSpace(s[|s| - 1]) {
      TrailingStartSpec(s[..|s| - 1]);
    }
  }

  /** Every character is white space. */
  ghost predicate AllSpace(s: string) {
    forall k :: 0 <= k < |s| ==> IsJsSpace(s[k])
  }

  /**
   * `s.trim()`: the slice of `s` left once the white space at both ends is
   * removed; nothing but white space lies outside it, and it neither starts
   * nor ends with white space.
   */
  function Trim(s: string): (r: string)
    ensures |r| <= |s|
    ensures exists i, j :: 0 <= i <= j <= |s| && r == s[i..j] && AllSpace(s[..i]) && AllSpace(s[j..])
    ensures r != [] ==> !IsJsSpace(r[0]) && !IsJsSpace(r[|r| - 1])
  {
    var i := LeadingSpace(s);
    var t := s[i..];
    LeadingSpaceSpec(s);
    TrailingStartSpec(t);
    var j := i + TrailingStart(t);
    assert t[..TrailingStart(t)] == s[i..j];
    assert AllSpace(s[j..]) by {
      forall k | 0 <= k < |s| - j ensures IsJsSpace(s[j..][k]) {
        assert s[j..][k] == t[TrailingStart(t) + k];
      }
    }
    assert t[..TrailingStart(t)] != [] ==> t[..TrailingStart(t)][0] == t[0];
    t[..TrailingStart(t)]
  }

  /** A trimmed text neither starts nor ends with white space. */
  lemma TrimEnds(s: string)
    ensures Trim(s) != [] ==> !IsJsSpace(Trim(s)[0]) && !IsJsSpace(Trim(s)[|Trim(s)| - 1])
  {
    var t := s[LeadingSpace(s)..];
    LeadingSpaceSpec(s);
    TrailingStartSpec(t);
    if Trim(s) != [] {
      assert Trim(s)[0] == t[0];
    }
  }

  /** A string without surrounding white space is its own trim. */
  lemma TrimOfTrimmed(s: string)
    requires s != [] ==> !IsJsSpace(s[0]) && !IsJsSpace(s[|s| - 1])
    ensures Trim(s) == s
  {
    assert LeadingSpace(s) == 0;
    assert s[0..] == s;
    assert TrailingStart(s) == |s|;
  }

  /** Trimming twice is trimming once. */
  lemma TrimIdempotent(s: string)
    ensures Trim(Trim(s)) == Trim(s)
  {
    TrimEnds(s);
    TrimOfTrimmed(Trim(s));
  }

  /** `parts.join(sep)`. */
  function Join(parts: seq<string>, sep: string): string {
    if parts == [] then ""
    else if |parts| == 1 then parts[0]
    else parts[0] + sep + Join(parts[1..], sep)
  }

  /** Two parts joined are the first, the separator and the second. */
  lemma JoinPair(a: string, b: string, sep: string)
    ensures Join([a, b], sep) == a + sep + b
  {
    assert [a, b][1..] == [b];
  }

  /** `s.replace(pat, rep)` with a string pattern: only the first occurrence is replaced. */
  function ReplaceFirst(s: string, pat: string, rep: string): string {
    if StartsWith(s, pat) then rep + s[|pat|..]
    else if s == [] then s
    else [s[0]] + ReplaceFirst(s[1..], pat, rep)
  }

  /** `sub` occurs in `s` starting at index `i`. */
  predicate OccursAt(s: string, sub: string, i: int) {
    0 <= i <= |s| - |sub| && s[i..i + |sub|] == sub
  }

  /** `s.includes(sub)`. */
  predicate Includes(s: string, sub: string) {
    exists i | 0 <= i <= |s| :: OccursAt(s, sub, i)
  }

  /** `c.toLowerCase()` for one character, restricted to the ASCII letters. */
  function LowerChar(c: char): char {
    if 'A' <= c <= 'Z' then (c as int + 32) as char else c
  }

  /** `s.toLowerCase()`, restricted to the ASCII letters. */
  function ToLower(s: string): (r: string)
    ensures |r| == |s|
    ensures forall k :: 0 <= k < |s| ==> r[k] == LowerChar(s[k])
  {
    seq(|s|, k requires 0 <= k < |s| => LowerChar(s[k]))
  }

  function DigitChar(d: nat): char
    requires d < 10
  {
    ('0' as int + d) as char
  }

  /** The decimal digits of `n`, without leading zeros. */
  function NatToString(n: nat): (r: string)
    ensures |r| >= 1
    ensures forall k :: 0 <= k < |r| ==> '0' <= r[k] <= '9'
    ensures r[0] == '0' ==> n == 0
  {
    if n < 10 then [DigitChar(n)] else NatToString(n / 10) + [DigitChar(n % 10)]
  }

  /** `String(n)` (or `${n}`) for an integer `n`. */
  function IntToString(n: int): string {
    if n < 0 then "-" + NatToString(-n) else NatToString(n)
  }

  /** A printed integer has no surrounding white space, so trimming keeps it. */
  lemma IntToStringTrimmed(n: int)
    ensures Trim(IntToString(n)) == IntToString(n)
    ensures IntToString(n) != ""
  {
    var s := IntToString(n);
    if n < 0 {
      assert s[0] == '-';
      assert s[|s| - 1] == NatToString(-n)[|NatToString(-n)| - 1];
    }
    TrimOfTrimmed(s);
  }
}
