/**
 * Character classes and string helpers of the .NET base library that the
 * Cypher helpers rely on: white space (regex \s, char.IsWhiteSpace and
 * String.Trim), word characters (regex \w), upper case (char.IsUpper),
 * ordinal IgnoreCase comparison, string.Join and int.ToString.
 */
module TextChars {

  /** .NET white space: regex \s and char.IsWhiteSpace denote the same set. */
  predicate IsSpace(c: char) {
    var n := c as int;
    (0x09 <= n <= 0x0D) || n == 0x20 || n == 0x85 || n == 0xA0 || n == 0x1680
    || (0x2000 <= n <= 0x200A) || n == 0x2028 || n == 0x2029 || n == 0x202F
    || n == 0x205F || n == 0x3000
  }

  predicate IsDigit(c: char) { '0' <= c <= '9' }

  predicate IsAsciiLetter(c: char) { ('a' <= c <= 'z') || ('A' <= c <= 'Z') }

  /** Regex \w, restricted to ASCII: letters, digits and the underscore. */
  predicate IsWordChar(c: char) { IsAsciiLetter(c) || IsDigit(c) || c == '_' }

  /** char.IsUpper, restricted to ASCII. */
  predicate IsUpper(c: char) { 'A' <= c <= 'Z' }

  /** The case folding RegexOptions.IgnoreCase applies, restricted to ASCII. */
  function ToLower(c: char): (r: char)
    ensures IsUpper(c) ==> r as int == c as int + 32
    ensures !IsUpper(c) ==> r == c
  {
    if IsUpper(c) then (c as int + 32) as char else c
  }

  function Lower(s: string): (r: string)
    ensures |r| == |s|
  {
    if s == [] then [] else [ToLower(s[0])] + Lower(s[1..])
  }

  /** Lower folds each character on its own. */
  lemma {:induction false} LowerAt(s: string, k: nat)
    requires k < |s|
    ensures Lower(s)[k] == ToLower(s[k])
  {
    if k > 0 {
      LowerAt(s[1..], k - 1);
    }
  }

  /** `kw` (given in lower case) occurs at position i of s, ignoring case. */
  predicate KeywordAt(s: string, i: nat, kw: string) {
    i + |kw| <= |s| && Lower(s[i..i + |kw|]) == kw
  }

  predicate StartsWith(s: string, prefix: string) {
    |prefix| <= |s| && s[..|prefix|] == prefix
  }

  predicate EndsWith(s: string, suffix: string) {
    |suffix| <= |s| && s[|s| - |suffix|..] == suffix
  }

  /** Some character of s satisfies char.IsUpper (s.Any(char.IsUpper)). */
  predicate HasUpper(s: string) {
    s != [] && (IsUpper(s[0]) || HasUpper(s[1..]))
  }

  lemma {:induction false} HasUpperMeans(s: string)
    ensures HasUpper(s) <==> exists k :: 0 <= k < |s| && IsUpper(s[k])
  {
    if s != [] {
      HasUpperMeans(s[1..]);
      if !IsUpper(s[0]) && exists k :: 0 <= k < |s| && IsUpper(s[k]) {
        var k :| 0 <= k < |s| && IsUpper(s[k]);
        assert s[1..][k - 1] == s[k];
      }
    }
  }

  /** String.Replace(char, char): every `from` becomes `to`. */
  function ReplaceChar(s: string, from: char, to: char): (r: string)
    ensures |r| == |s|
    ensures forall k :: 0 <= k < |s| ==> r[k] == if s[k] == from then to else s[k]
  {
    if s == [] then [] else [if s[0] == from then to else s[0]] + ReplaceChar(s[1..], from, to)
  }

  /** Drops the leading characters that satisfy `drop`. */
  function StripStart(s: string, drop: char -> bool): (r: string)
    ensures |r| <= |s| && r == s[|s| - |r|..]
    ensures r == [] || !drop(r[0])
    ensures forall k :: 0 <= k < |s| - |r| ==> drop(s[k])
  {
    if s != [] && drop(s[0]) then StripStart(s[1..], drop) else s
  }

  /** Drops the trailing characters that satisfy `drop`. */
  function StripEnd(s: string, drop: char -> bool): (r: string)
    ensures |r| <= |s| && r == s[..|r|]
    ensures r == [] || !drop(r[|r| - 1])
    ensures forall k :: |r| <= k < |s| ==> drop(s[k])
  {
    if s != [] && drop(s[|s| - 1]) then StripEnd(s[..|s| - 1], drop) else s
  }

  predicate IsTrimmed(s: string) {
    s == [] || (!IsSpace(s[0]) && !IsSpace(s[|s| - 1]))
  }

  /** String.Trim(): drops white space at both ends. */
  function Trim(s: string): (r: string)
    ensures IsTrimmed(r)
    ensures |r| <= |s|
  {
    var t := StripStart(s, IsSpace);
    var r := StripEnd(t, IsSpace);
    assert r != [] ==> r[0] == t[0];
    r
  }

  /**
   * Trim removes exactly the white space at the ends: the result is a slice
   * of s with only white space around it, and since it neither starts nor
   * ends with white space, no more could be removed.
   */
  lemma TrimIsSlice(s: string)
    ensures exists a :: 0 <= a <= |s| - |Trim(s)| && Trim(s) == s[a..][..|Trim(s)|]
              && (forall k :: 0 <= k < a ==> IsSpace(s[k]))
              && (forall k :: a + |Trim(s)| <= k < |s| ==> IsSpace(s[k]))
    ensures IsTrimmed(Trim(s))
  {
    var t := StripStart(s, IsSpace);
    var a := |s| - |t|;
    assert Trim(s) == s[a..][..|Trim(s)|];
  }

  /** String.Trim(char): drops the given character at both ends. */
  function TrimChar(s: string, c: char): (r: string)
    ensures r == [] || (r[0] != c && r[|r| - 1] != c)
    ensures |r| <= |s|
  {
    var t := StripStart(s, x => x == c);
    var r := StripEnd(t, x => x == c);
    assert r != [] ==> r[0] == t[0];
    r
  }

  /**
   * Trim(char) removes exactly the occurrences of c at the ends: the result
   * is a slice of s with only c around it, and it neither starts nor ends with c.
   */
  lemma TrimCharIsSlice(s: string, c: char)
    ensures exists a :: 0 <= a <= |s| - |TrimChar(s, c)| && TrimChar(s, c) == s[a..][..|TrimChar(s, c)|]
              && (forall k :: 0 <= k < a ==> s[k] == c)
              && (forall k :: a + |TrimChar(s, c)| <= k < |s| ==> s[k] == c)
    ensures TrimChar(s, c) == [] || (TrimChar(s, c)[0] != c && TrimChar(s, c)[|TrimChar(s, c)| - 1] != c)
  {
    var t := StripStart(s, x => x == c);
    var a := |s| - |t|;
    assert TrimChar(s, c) == s[a..][..|TrimChar(s, c)|];
  }

  /** Trimming a character that does not occur changes nothing. */
  lemma TrimCharAbsent(s: string, c: char)
    requires c !in s
    ensures TrimChar(s, c) == s
  {
    assert s != [] ==> s[0] != c && s[|s| - 1] != c;
  }

  /** string.Join(sep, parts). */
  function JoinWith(parts: seq<string>, sep: string): string {
    if |parts| == 0 then ""
    else if |parts| == 1 then parts[0]
    else JoinWith(parts[..|parts| - 1], sep) + sep + parts[|parts| - 1]
  }

  predicate AllDigits(s: string) {
    forall k :: 0 <= k < |s| ==> IsDigit(s[k])
  }

  function DigitChar(d: nat): (c: char)
    requires d < 10
    ensures IsDigit(c)
  {
    ('0' as int + d) as char
  }

  /** int.ToString() and ulong.ToString() for a non-negative value: plain decimal. */
  function NatToString(n: nat): (s: string)
    ensures 1 <= |s| && AllDigits(s)
    decreases n
  {
    if n < 10 then [DigitChar(n)] else NatToString(n / 10) + [DigitChar(n % 10)]
  }

  /** The decimal value of a digit string, the inverse of NatToString. */
  function ParseNat(s: string): nat
    requires AllDigits(s)
  {
    if s == [] then 0 else ParseNat(s[..|s| - 1]) * 10 + (s[|s| - 1] as int - '0' as int)
  }

  lemma {:induction false} ParseNatToString(n: nat)
    ensures ParseNat(NatToString(n)) == n
  {
    var s := NatToString(n);
    if n >= 10 {
      ParseNatToString(n / 10);
      assert s[..|s| - 1] == NatToString(n / 10);
    }
  }
}
