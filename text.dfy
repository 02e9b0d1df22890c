/**
 * The handful of Python string operations the generator relies on:
 * `str.startswith`, `str.strip`, `str.join`, `str.replace(pattern, '')`
 * and `str(n)` for a natural number. Whitespace is the ASCII set.
 */
module Text {

  /** `\s` and `str.isspace`, restricted to ASCII. */
  predicate IsSpace(c: char) {
    c == ' ' || c == '\t' || c == '\n' || c == '\r' || c == '\U{0B}' || c == '\U{0C}'
  }

  predicate AllSpace(s: string) {
    forall i :: 0 <= i < |s| ==> IsSpace(s[i])
  }

  predicate StartsWith(s: string, prefix: string) {
    |prefix| <= |s| && s[..|prefix|] == prefix
  }

  /** `pattern` occurs in `s` at index `i`. */
  predicate OccursAt(s: string, pattern: string, i: int) {
    0 <= i && i + |pattern| <= |s| && s[i..i + |pattern|] == pattern
  }

  /** `pattern` occurs somewhere in `s`. */
  predicate Contains(s: string, pattern: string) {
    exists i :: 0 <= i <= |s| && OccursAt(s, pattern, i)
  }

  /** No whitespace at either end. */
  predicate IsTrimmed(s: string) {
    |s| == 0 || (!IsSpace(s[0]) && !IsSpace(s[|s| - 1]))
  }

  function LeadingSpaces(s: string): (n: nat)
    ensures n <= |s|
    ensures forall i :: 0 <= i < n ==> IsSpace(s[i])
    ensures n < |s| ==> !IsSpace(s[n])
  {
    if |s| > 0 && IsSpace(s[0]) then 1 + LeadingSpaces(s[1..]) else 0
  }

  /** Python's `str.strip()` with no argument: whitespace is dropped from both ends. */
  function Trim(s: string): (r: string)
    ensures IsTrimmed(r)
    decreases |s|
  {
    if |s| > 0 && IsSpace(s[0]) then Trim(s[1..])
    else if |s| > 0 && IsSpace(s[|s| - 1]) then Trim(s[..|s| - 1])
    else s
  }

  /**
   * `r` is what stripping `s` keeps: the run of `s` that starts after its
   * leading whitespace and is followed only by whitespace, and nothing at all
   * when `s` is all whitespace.
   */
  predicate TrimShape(s: string, r: string) {
    var a := LeadingSpaces(s);
    && a + |r| <= |s|
    && r == s[a..a + |r|]
    && AllSpace(s[a + |r|..])
    && (r == [] <==> AllSpace(s))
  }

  lemma {:induction false} TrimSpec(s: string)
    ensures TrimShape(s, Trim(s))
    decreases |s|
  {
    if |s| > 0 && IsSpace(s[0]) {
      TrimSpec(s[1..]);
      ShapeDropFront(s, Trim(s));
    } else if |s| > 0 && IsSpace(s[|s| - 1]) {
      TrimSpec(s[..|s| - 1]);
      ShapeDropBack(s, Trim(s));
    } else {
      assert |s| > 0 ==> LeadingSpaces(s) == 0;
      assert |s| > 0 ==> !AllSpace(s);
    }
  }

  lemma ShapeDropFront(s: string, r: string)
    requires |s| > 0 && IsSpace(s[0]) && TrimShape(s[1..], r)
    ensures TrimShape(s, r)
  {
    var t := s[1..];
    var a := LeadingSpaces(t);
    assert LeadingSpaces(s) == a + 1;
    assert t[a..a + |r|] == s[a + 1..a + 1 + |r|];
    assert t[a + |r|..] == s[a + 1 + |r|..];
    if AllSpace(t) {
      forall i | 0 <= i < |s| ensures IsSpace(s[i]) {
        if i > 0 { assert s[i] == t[i - 1]; }
      }
    }
  }

  lemma ShapeDropBack(s: string, r: string)
    requires |s| > 0 && !IsSpace(s[0]) && IsSpace(s[|s| - 1]) && TrimShape(s[..|s| - 1], r)
    ensures TrimShape(s, r)
  {
    var t := s[..|s| - 1];
    assert t[0] == s[0];
    assert LeadingSpaces(t) == 0 && LeadingSpaces(s) == 0;
    assert t[..|r|] == s[..|r|];
    assert s[|r|..] == t[|r|..] + [s[|s| - 1]];
    assert !AllSpace(s) && !AllSpace(t);
  }

  /** Stripping ignores leading whitespace: `s.strip() == s[k:].strip()` when `s[:k]` is whitespace. */
  lemma {:induction false} TrimDropFront(s: string, k: nat)
    requires k <= |s| && AllSpace(s[..k])
    ensures Trim(s) == Trim(s[k..])
    decreases k
  {
    if k > 0 {
      assert IsSpace(s[..k][0]);
      assert s[1..][..k - 1] == s[1..k];
      TrimDropFront(s[1..], k - 1);
      assert s[1..][k - 1..] == s[k..];
    }
  }

  /** The leading run of whitespace is all whitespace. */
  lemma LeadingRunSpace(s: string)
    ensures AllSpace(s[..LeadingSpaces(s)])
  {
    var n := LeadingSpaces(s);
    forall i | 0 <= i < n ensures IsSpace(s[..n][i]) {
      assert s[..n][i] == s[i];
    }
  }

  /** Stripping ignores a final whitespace character. */
  lemma {:induction false} TrimDropBack(s: string)
    requires |s| > 0 && IsSpace(s[|s| - 1])
    ensures Trim(s) == Trim(s[..|s| - 1])
    decreases |s|
  {
    var init := s[..|s| - 1];
    if |s| > 1 && IsSpace(s[0]) {
      var t := s[1..];
      assert t[|t| - 1] == s[|s| - 1];
      TrimDropBack(t);
      assert t[..|t| - 1] == init[1..];
      assert init[0] == s[0];
    } else if |s| == 1 {
      assert init == [];
    }
  }

  /** Concatenation regroups freely. */
  lemma ConcatAssoc<T>(x: seq<T>, y: seq<T>, z: seq<T>)
    ensures x + y + z == x + (y + z)
  {
  }

  /** Stripping a string that has no whitespace at either end changes nothing. */
  lemma TrimTrimmed(s: string)
    requires IsTrimmed(s)
    ensures Trim(s) == s
  {
  }

  /**
   * A prefix that neither begins nor ends with whitespace survives stripping:
   * `s.startswith(p)` implies `s.strip().startswith(p)`.
   */
  lemma StartsWithTrim(s: string, prefix: string)
    requires StartsWith(s, prefix) && |prefix| > 0
    requires !IsSpace(prefix[0]) && !IsSpace(prefix[|prefix| - 1])
    ensures StartsWith(Trim(s), prefix)
  {
    assert s[0] == prefix[0];
    assert LeadingSpaces(s) == 0;
    TrimSpec(s);
    var r := Trim(s);
    assert r[..|prefix|] == s[..|prefix|];
  }

  /** Python's `sep.join(parts)`. */
  function Join(parts: seq<string>, sep: string): (r: string)
    ensures |parts| == 1 ==> r == parts[0]
    ensures |parts| > 1 ==> StartsWith(r, parts[0] + sep)
  {
    if |parts| == 0 then ""
    else if |parts| == 1 then parts[0]
    else parts[0] + sep + Join(parts[1..], sep)
  }

  /**
   * Python's `s.replace(pattern, '')`: every occurrence of `pattern`, found
   * left to right without overlap, is removed; an empty pattern removes
   * nothing.
   */
  function RemoveAll(s: string, pattern: string): (r: string)
    ensures |r| <= |s|
    decreases |s|
  {
    if |pattern| == 0 || |s| < |pattern| then s
    else if s[..|pattern|] == pattern then RemoveAll(s[|pattern|..], pattern)
    else [s[0]] + RemoveAll(s[1..], pattern)
  }

  lemma ContainsTail(s: string, pattern: string)
    requires |s| > 0
    ensures Contains(s[1..], pattern) ==> Contains(s, pattern)
  {
    if Contains(s[1..], pattern) {
      var i :| 0 <= i <= |s[1..]| && OccursAt(s[1..], pattern, i);
      assert s[1..][i..i + |pattern|] == s[i + 1..i + 1 + |pattern|];
      assert OccursAt(s, pattern, i + 1);
    }
  }

  function DigitChar(d: nat): (c: char)
    requires d < 10
    ensures '0' <= c <= '9'
  {
    "0123456789"[d]
  }

  predicate IsDigit(c: char) {
    '0' <= c <= '9'
  }

  /** The value of a string of decimal digits. */
  function DecimalValue(s: string): nat
    requires forall i :: 0 <= i < |s| ==> IsDigit(s[i])
  {
    if |s| == 0 then 0
    else
      var d := s[|s| - 1] as int - '0' as int;
      assert IsDigit(s[|s| - 1]);
      10 * DecimalValue(s[..|s| - 1]) + d
  }

  /** Python's `str(n)` for a natural number: decimal digits, no leading zero. */
  function NatToString(n: nat): (r: string)
    ensures |r| > 0
    ensures forall i :: 0 <= i < |r| ==> IsDigit(r[i])
    ensures r[0] == '0' ==> n == 0
    ensures DecimalValue(r) == n
    decreases n
  {
    if n < 10 then
      var r := [DigitChar(n)];
      assert r[..0] == [];
      r
    else
      var p := NatToString(n / 10);
      var r := p + [DigitChar(n % 10)];
      assert r[..|r| - 1] == p;
      r
  }
}
