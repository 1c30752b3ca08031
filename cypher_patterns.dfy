/**
 * The fixed .NET regular expressions of the Cypher helpers, each written out
 * as the matcher the .NET backtracking engine amounts to for that pattern.
 * `.` never meets a line feed here: the clause is searched in text whose line
 * breaks were turned into spaces, and the pieces come from that text.
 */
module CypherPatterns {
  import opened TextChars
  import opened Wrappers

  /** The first position at or after i that is not white space (or |s|): where greedy \s* stops. */
  function SkipSpaces(s: string, i: nat): (j: nat)
    requires i <= |s|
    ensures i <= j <= |s|
    ensures forall k :: i <= k < j ==> IsSpace(s[k])
    ensures j == |s| || !IsSpace(s[j])
    decreases |s| - i
  {
    if i < |s| && IsSpace(s[i]) then SkipSpaces(s, i + 1) else i
  }

  /** The first position at or after i that is not a word character: where greedy \w* stops. */
  function WordEnd(s: string, i: nat): (j: nat)
    requires i <= |s|
    ensures i <= j <= |s|
    ensures forall k :: i <= k < j ==> IsWordChar(s[k])
    ensures j == |s| || !IsWordChar(s[j])
    decreases |s| - i
  {
    if i < |s| && IsWordChar(s[i]) then WordEnd(s, i + 1) else i
  }

  // ---------------------------------------------------------------------------
  // RETURN\s+(.+?)(?=\s*(?:RETURN|LIMIT|SKIP|ORDER|$))   with IgnoreCase

  /** The look-ahead (?=\s*(?:RETURN|LIMIT|SKIP|ORDER|$)) succeeds at position p. */
  predicate ClauseEndsAt(t: string, p: nat)
    requires p <= |t|
  {
    var q := SkipSpaces(t, p);
    q == |t| || KeywordAt(t, q, "return") || KeywordAt(t, q, "limit")
    || KeywordAt(t, q, "skip") || KeywordAt(t, q, "order")
  }

  /** The lazy group (.+?) grows one character at a time: it stops at the first p >= from where the look-ahead holds. */
  function ClauseEnd(t: string, from: nat): (e: nat)
    requires from <= |t|
    ensures from <= e <= |t| && ClauseEndsAt(t, e)
    ensures forall p :: from <= p < e ==> !ClauseEndsAt(t, p)
    decreases |t| - from
  {
    if from == |t| || ClauseEndsAt(t, from) then from else ClauseEnd(t, from + 1)
  }

  /** The span t[start..end] of group 1 of a match. */
  datatype Span = Span(start: nat, end: nat)

  /**
   * The match that starts at position i, if any. Greedy \s+ first takes the
   * whole white-space run; only when that run reaches the end of the text does
   * it give back its last character, which then forms the one-character group.
   */
  function ReturnMatchAt(t: string, i: nat): (m: Option<Span>)
    requires i <= |t|
    ensures m.Some? ==> KeywordAt(t, i, "return")
    ensures m.Some? ==> i + 6 <= m.value.start && m.value.start < m.value.end <= |t|
    ensures m.Some? ==> forall k :: i + 6 <= k < m.value.start ==> IsSpace(t[k])
    ensures m.Some? ==> ClauseEndsAt(t, m.value.end)
    ensures m.Some? ==> forall p :: m.value.start < p < m.value.end ==> !ClauseEndsAt(t, p)
  {
    if !KeywordAt(t, i, "return") then None
    else
      var j := SkipSpaces(t, i + 6);
      if j == i + 6 then None
      else if j < |t| then Some(Span(j, ClauseEnd(t, j + 1)))
      else if j >= i + 8 then Some(Span(j - 1, j))
      else None
  }

  /**
   * A match starts at i exactly when RETURN (in any case) is followed by white
   * space and at least one more character. Its group starts at the first
   * character after the white space, or at the last character of the text
   * when the white space runs to the end.
   */
  lemma ReturnMatchExactly(t: string, i: nat)
    requires i <= |t|
    ensures ReturnMatchAt(t, i).Some? <==> KeywordAt(t, i, "return") && i + 7 < |t| && IsSpace(t[i + 6])
    ensures ReturnMatchAt(t, i).Some? ==>
              var g := ReturnMatchAt(t, i).value.start;
              g + 1 == |t| || !IsSpace(t[g])
  {
  }

  /** Regex.Matches: scan left to right, resuming after each match. */
  function ReturnMatches(t: string, from: nat): (ms: seq<Span>)
    requires from <= |t|
    ensures forall k :: 0 <= k < |ms| ==> from < ms[k].start < ms[k].end <= |t|
    decreases |t| - from
  {
    if from == |t| then []
    else match ReturnMatchAt(t, from)
      case Some(m) => [m] + ReturnMatches(t, m.end)
      case None => ReturnMatches(t, from + 1)
  }

  /** Group 1 of the last match (matches[^1]), if there is one. */
  function LastReturnClause(t: string): (c: Option<Span>)
    ensures c.Some? ==> c.value.start < c.value.end <= |t|
  {
    var ms := ReturnMatches(t, 0);
    if |ms| == 0 then None else Some(ms[|ms| - 1])
  }

  // ---------------------------------------------------------------------------
  // \b(CREATE|MATCH|SET|WITH|REMOVE|DELETE)\b   with IgnoreCase

  /** `kw` occurs at p as a whole word: \b on both sides. */
  predicate WholeWordAt(c: string, p: nat, kw: string) {
    KeywordAt(c, p, kw)
    && (p == 0 || !IsWordChar(c[p - 1]))
    && (p + |kw| == |c| || !IsWordChar(c[p + |kw|]))
  }

  predicate WriteKeywordAt(c: string, p: nat) {
    WholeWordAt(c, p, "create") || WholeWordAt(c, p, "match") || WholeWordAt(c, p, "set")
    || WholeWordAt(c, p, "with") || WholeWordAt(c, p, "remove") || WholeWordAt(c, p, "delete")
  }

  function WriteKeywordFrom(c: string, p: nat): (r: bool)
    requires p <= |c|
    ensures r <==> exists q :: p <= q < |c| && WriteKeywordAt(c, q)
    decreases |c| - p
  {
    if p == |c| then false else WriteKeywordAt(c, p) || WriteKeywordFrom(c, p + 1)
  }

  /** Regex.IsMatch for the write-keyword pattern. */
  predicate HasWriteKeyword(c: string) {
    WriteKeywordFrom(c, 0)
  }

  // ---------------------------------------------------------------------------
  // AS\s+(\w+)   with IgnoreCase, first match

  /** A word character is never white space, so \s+ and \w+ never compete for a character. */
  lemma WordCharIsNotSpace(c: char)
    requires IsWordChar(c)
    ensures !IsSpace(c)
  {
  }

  /** A match of AS\s+(\w+) at p: AS, the white space v[p+2..j], and the group v[j..e], a run of word characters that \w+ cannot extend. */
  predicate AliasMatch(v: string, p: nat, j: nat, e: nat) {
    KeywordAt(v, p, "as") && p + 2 < j < e <= |v|
    && (forall k :: p + 2 <= k < j ==> IsSpace(v[k]))
    && (forall k :: j <= k < e ==> IsWordChar(v[k]))
    && (e == |v| || !IsWordChar(v[e]))
  }

  /** At most one match starts at p: the white space and the word run are both maximal. */
  lemma AliasMatchIsMaximal(v: string, p: nat, j: nat, e: nat)
    requires AliasMatch(v, p, j, e)
    ensures j == SkipSpaces(v, p + 2) && e == WordEnd(v, j)
  {
    WordCharIsNotSpace(v[j]);
    var j' := SkipSpaces(v, p + 2);
    assert j' == j;
    var e' := WordEnd(v, j);
    assert e' == e;
  }

  /** Group 1 of a match of AS\s+(\w+) starting at p, if one starts there. */
  function AliasWordAt(v: string, p: nat): (r: Option<string>)
    requires p <= |v|
    ensures r.Some? ==> r.value != [] && forall k :: 0 <= k < |r.value| ==> IsWordChar(r.value[k])
  {
    if !KeywordAt(v, p, "as") then None
    else
      var j := SkipSpaces(v, p + 2);
      if j == p + 2 || j == |v| || !IsWordChar(v[j]) then None
      else Some(v[j..WordEnd(v, j)])
  }

  /** AliasWordAt finds a group exactly when a match starts at p, and the group it finds is that match's. */
  lemma AliasWordAtMeans(v: string, p: nat)
    requires p <= |v|
    ensures AliasWordAt(v, p).Some? <==> exists j: nat, e: nat :: AliasMatch(v, p, j, e)
    ensures forall j: nat, e: nat :: AliasMatch(v, p, j, e) ==> AliasWordAt(v, p) == Some(v[j..e])
  {
    forall j: nat, e: nat | AliasMatch(v, p, j, e)
      ensures j == SkipSpaces(v, p + 2) && e == WordEnd(v, j)
    {
      AliasMatchIsMaximal(v, p, j, e);
    }
    if AliasWordAt(v, p).Some? {
      var j := SkipSpaces(v, p + 2);
      assert AliasMatch(v, p, j, WordEnd(v, j));
    }
  }

  /** The scan from p for the leftmost match. */
  function ObjectAliasFrom(v: string, p: nat): (r: Option<string>)
    requires p <= |v|
    ensures r.Some? ==> exists q :: p <= q <= |v| && AliasWordAt(v, q) == r
    decreases |v| - p
  {
    if p == |v| then None
    else if AliasWordAt(v, p).Some? then AliasWordAt(v, p)
    else ObjectAliasFrom(v, p + 1)
  }

  /** The scan finds nothing exactly when no match starts at or after p; otherwise it finds the group of the leftmost match. */
  lemma {:induction false} ObjectAliasIsLeftmost(v: string, p: nat)
    requires p <= |v|
    ensures ObjectAliasFrom(v, p).None? <==> forall q :: p <= q <= |v| ==> AliasWordAt(v, q).None?
    ensures forall q :: p <= q <= |v| && AliasWordAt(v, q).Some?
                        && (forall x :: p <= x < q ==> AliasWordAt(v, x).None?)
                        ==> ObjectAliasFrom(v, p) == AliasWordAt(v, q)
    decreases |v| - p
  {
    if p < |v| && AliasWordAt(v, p).None? {
      ObjectAliasIsLeftmost(v, p + 1);
    }
  }

  /** The alias of an object or array literal: the leftmost match of AS\s+(\w+). */
  function ObjectAlias(v: string): Option<string> {
    ObjectAliasFrom(v, 0)
  }

  // ---------------------------------------------------------------------------
  // \s+AS\s+   with IgnoreCase: Regex.IsMatch and Regex.Split(...).Last()

  /** The keyword AS begins with a letter, never with white space. */
  lemma KeywordAsIsNotSpace(v: string, j: nat)
    requires KeywordAt(v, j, "as")
    ensures !IsSpace(v[j])
  {
    LowerAt(v[j..j + 2], 0);
  }

  /** A match of \s+AS\s+ at p: the white space v[p..j], AS at j, and the white space v[j+2..e], which \s+ cannot extend. */
  predicate SeparatorMatch(v: string, p: nat, j: nat, e: nat) {
    p < j && j + 2 < e <= |v| && KeywordAt(v, j, "as")
    && (forall k :: p <= k < j ==> IsSpace(v[k]))
    && (forall k :: j + 2 <= k < e ==> IsSpace(v[k]))
    && (e == |v| || !IsSpace(v[e]))
  }

  /** At most one match starts at p: AS can only follow the whole white-space run, and the trailing run is greedy. */
  lemma SeparatorMatchIsMaximal(v: string, p: nat, j: nat, e: nat)
    requires SeparatorMatch(v, p, j, e)
    ensures j == SkipSpaces(v, p) && e == SkipSpaces(v, j + 2)
  {
    KeywordAsIsNotSpace(v, j);
    var j' := SkipSpaces(v, p);
    assert j' == j;
    var e' := SkipSpaces(v, j + 2);
    assert e' == e;
  }

  /** The end of a match of \s+AS\s+ starting at p, if one starts there. */
  function AliasSeparatorAt(v: string, p: nat): (r: Option<nat>)
    requires p <= |v|
    ensures r.Some? ==> p < r.value <= |v|
  {
    if p == |v| || !IsSpace(v[p]) then None
    else
      var j := SkipSpaces(v, p);
      if !KeywordAt(v, j, "as") then None
      else
        var k := SkipSpaces(v, j + 2);
        if k == j + 2 then None else Some(k)
  }

  /** AliasSeparatorAt finds an end exactly when a match starts at p, and the end it finds is that match's. */
  lemma AliasSeparatorAtMeans(v: string, p: nat)
    requires p <= |v|
    ensures AliasSeparatorAt(v, p).Some? <==> exists j: nat, e: nat :: SeparatorMatch(v, p, j, e)
    ensures forall j: nat, e: nat :: SeparatorMatch(v, p, j, e) ==> AliasSeparatorAt(v, p) == Some(e)
  {
    forall j: nat, e: nat | SeparatorMatch(v, p, j, e)
      ensures j == SkipSpaces(v, p) && e == SkipSpaces(v, j + 2)
    {
      SeparatorMatchIsMaximal(v, p, j, e);
    }
    if AliasSeparatorAt(v, p).Some? {
      var j := SkipSpaces(v, p);
      assert SeparatorMatch(v, p, j, SkipSpaces(v, j + 2));
    }
  }

  /** The end of the last separator found by Regex.Split's left-to-right scan from `from`, which resumes after each separator. */
  function LastAliasSeparatorEnd(v: string, from: nat): (r: Option<nat>)
    requires from <= |v|
    ensures r.Some? ==> from < r.value <= |v|
    decreases |v| - from
  {
    if from == |v| then None
    else match AliasSeparatorAt(v, from)
      case Some(k) => (if LastAliasSeparatorEnd(v, k).Some? then LastAliasSeparatorEnd(v, k) else Some(k))
      case None => LastAliasSeparatorEnd(v, from + 1)
  }

  /**
   * The scan finds nothing exactly when no separator starts at or after
   * `from`; otherwise what it finds is the end of a separator, and no
   * separator starts at or after it.
   */
  lemma {:induction false} LastSeparatorOfScan(v: string, from: nat)
    requires from <= |v|
    ensures LastAliasSeparatorEnd(v, from).None? <==> forall q :: from <= q < |v| ==> AliasSeparatorAt(v, q).None?
    ensures LastAliasSeparatorEnd(v, from).Some? ==>
              var e := LastAliasSeparatorEnd(v, from).value;
              (exists q :: from <= q < e && AliasSeparatorAt(v, q) == Some(e))
              && forall q :: e <= q < |v| ==> AliasSeparatorAt(v, q).None?
    decreases |v| - from
  {
    if from < |v| {
      match AliasSeparatorAt(v, from)
      case Some(k) =>
        LastSeparatorOfScan(v, k);
      case None =>
        LastSeparatorOfScan(v, from + 1);
    }
  }

  predicate HasAliasSeparator(v: string) {
    LastAliasSeparatorEnd(v, 0).Some?
  }

  /** Regex.Split(v, @"\s+AS\s+").Last(): the text after the last separator. */
  function AfterLastAliasSeparator(v: string): string
    requires HasAliasSeparator(v)
  {
    v[LastAliasSeparatorEnd(v, 0).value..]
  }

  // ---------------------------------------------------------------------------
  // \w+\(.*\)   Regex.IsMatch, and \w+   Regex.Match(...).Value

  /** A ')' occurs at or after m before the next line feed: `.*\)` can complete. */
  predicate CloseParenOnLine(v: string, m: nat)
    requires m <= |v|
    decreases |v| - m
  {
    m < |v| && v[m] != '\n' && (v[m] == ')' || CloseParenOnLine(v, m + 1))
  }

  predicate CallAt(v: string, q: nat) {
    0 < q < |v| && IsWordChar(v[q - 1]) && v[q] == '(' && CloseParenOnLine(v, q + 1)
  }

  predicate CallFrom(v: string, q: nat)
    requires q <= |v|
    decreases |v| - q
  {
    q < |v| && (CallAt(v, q) || CallFrom(v, q + 1))
  }

  /** Regex.IsMatch(v, @"\w+\(.*\)"): a word character, '(' and later a ')' on the same line. */
  predicate HasFunctionCall(v: string) {
    CallFrom(v, 0)
  }

  /** `.*\)` completes from m exactly when some ')' at or after m has no line feed before it. */
  lemma {:induction false} CloseParenOnLineMeans(v: string, m: nat)
    requires m <= |v|
    ensures CloseParenOnLine(v, m) <==> exists x :: m <= x < |v| && v[x] == ')' && '\n' !in v[m..x]
    decreases |v| - m
  {
    if m < |v| {
      CloseParenOnLineMeans(v, m + 1);
      assert forall x :: m + 1 <= x <= |v| ==> v[m..x] == [v[m]] + v[m + 1..x];
      if exists x :: m <= x < |v| && v[x] == ')' && '\n' !in v[m..x] {
        var x :| m <= x < |v| && v[x] == ')' && '\n' !in v[m..x];
        if x > m {
          assert v[m] in v[m..x];
        }
      }
    }
  }

  /** The call pattern matches from q exactly when CallAt holds at some position at or after q. */
  lemma {:induction false} CallFromMeans(v: string, q: nat)
    requires q <= |v|
    ensures CallFrom(v, q) <==> exists x :: q <= x < |v| && CallAt(v, x)
    decreases |v| - q
  {
    if q < |v| {
      CallFromMeans(v, q + 1);
    }
  }

  /** v[q..e] is the first run of word characters at or after p, and \w+ cannot extend it. */
  predicate FirstWordRun(v: string, p: nat, q: nat, e: nat) {
    p <= q < e <= |v|
    && (forall k :: p <= k < q ==> !IsWordChar(v[k]))
    && (forall k :: q <= k < e ==> IsWordChar(v[k]))
    && (e == |v| || !IsWordChar(v[e]))
  }

  /** The first match of \w+ at or after p, or "" when there is none. */
  function FirstWordFrom(v: string, p: nat): (r: string)
    requires p <= |v|
    ensures forall k :: 0 <= k < |r| ==> IsWordChar(r[k])
    decreases |v| - p
  {
    if p == |v| then ""
    else if IsWordChar(v[p]) then v[p..WordEnd(v, p)]
    else FirstWordFrom(v, p + 1)
  }

  /** The result is empty exactly when no word character follows p; otherwise it is the first run of word characters, whole. */
  lemma {:induction false} FirstWordIsFirstRun(v: string, p: nat)
    requires p <= |v|
    ensures FirstWordFrom(v, p) == [] <==> forall k :: p <= k < |v| ==> !IsWordChar(v[k])
    ensures forall q: nat, e: nat :: FirstWordRun(v, p, q, e) ==> FirstWordFrom(v, p) == v[q..e]
    decreases |v| - p
  {
    if p < |v| {
      if IsWordChar(v[p]) {
        var e := WordEnd(v, p);
        assert forall q: nat, e': nat :: FirstWordRun(v, p, q, e') ==> q == p && e' == e;
      } else {
        FirstWordIsFirstRun(v, p + 1);
        assert forall q: nat, e: nat :: FirstWordRun(v, p, q, e) ==> FirstWordRun(v, p + 1, q, e);
      }
    }
  }

  /** Regex.Match(v, @"\w+").Value: the leftmost run of word characters, or "" when there is none. */
  function FirstWord(v: string): string {
    FirstWordFrom(v, 0)
  }

  // ---------------------------------------------------------------------------
  // String.Split(c).Last()

  /** The text after the last occurrence of c (all of v when c does not occur). */
  function AfterLast(v: string, c: char): (r: string)
    ensures |r| <= |v| && r == v[|v| - |r|..] && c !in r
    ensures c in v ==> v[|v| - |r| - 1] == c
  {
    if v == [] then []
    else if v[|v| - 1] == c then []
    else AfterLast(v[..|v| - 1], c) + [v[|v| - 1]]
  }

  // ---------------------------------------------------------------------------
  // \['(.*?)'\]   first match, group 1

  /** The lazy group stops at the first q >= m followed by "']", and fails at a line feed or the end. */
  function QuoteBracketClose(v: string, m: nat): (r: Option<nat>)
    requires m <= |v|
    ensures r.Some? ==> m <= r.value && r.value + 1 < |v| && v[r.value] == '\'' && v[r.value + 1] == ']'
    decreases |v| - m
  {
    if m + 1 < |v| && v[m] == '\'' && v[m + 1] == ']' then Some(m)
    else if m == |v| || v[m] == '\n' then None
    else QuoteBracketClose(v, m + 1)
  }

  /**
   * The "']" found is the first after m, with no line feed before it, and
   * none is found only when every "']" after m has a line feed before it.
   */
  lemma {:induction false} QuoteBracketCloseIsFirst(v: string, m: nat)
    requires m <= |v|
    ensures QuoteBracketClose(v, m).Some? ==>
              forall q :: m <= q < QuoteBracketClose(v, m).value ==> v[q] != '\n' && !(v[q] == '\'' && v[q + 1] == ']')
    ensures QuoteBracketClose(v, m).None? ==>
              forall q :: m <= q < |v| - 1 && v[q] == '\'' && v[q + 1] == ']' ==> '\n' in v[m..q]
    decreases |v| - m
  {
    if m + 1 < |v| && v[m] == '\'' && v[m + 1] == ']' {
    } else if m == |v| || v[m] == '\n' {
      assert forall q :: m < q <= |v| ==> v[m] in v[m..q];
    } else {
      QuoteBracketCloseIsFirst(v, m + 1);
      assert forall q :: m + 1 <= q <= |v| ==> v[m..q] == [v[m]] + v[m + 1..q];
    }
  }

  /** A match of \['(.*?)'\] starts at p. */
  predicate BracketMatchAt(v: string, p: nat) {
    p + 1 < |v| && v[p] == '[' && v[p + 1] == '\'' && QuoteBracketClose(v, p + 2).Some?
  }

  /** The group of the first match of \['(.*?)'\] at or after p. */
  function BracketKeyFrom(v: string, p: nat): Option<string>
    requires p <= |v|
    decreases |v| - p
  {
    if p + 1 >= |v| then None
    else if v[p] == '[' && v[p + 1] == '\'' && QuoteBracketClose(v, p + 2).Some? then
      Some(v[p + 2..QuoteBracketClose(v, p + 2).value])
    else BracketKeyFrom(v, p + 1)
  }

  /** None exactly when no match starts at or after p; otherwise the group of the leftmost match. */
  lemma {:induction false} BracketKeyIsLeftmost(v: string, p: nat)
    requires p <= |v|
    ensures BracketKeyFrom(v, p).None? <==> forall q :: p <= q < |v| ==> !BracketMatchAt(v, q)
    ensures forall q :: p <= q < |v| && BracketMatchAt(v, q) && (forall x :: p <= x < q ==> !BracketMatchAt(v, x))
                        ==> BracketKeyFrom(v, p) == Some(v[q + 2..QuoteBracketClose(v, q + 2).value])
    decreases |v| - p
  {
    if p + 1 < |v| {
      if BracketMatchAt(v, p) {
      } else {
        BracketKeyIsLeftmost(v, p + 1);
      }
    }
  }

  /** The key k of the leftmost ['k'] accessor. */
  function BracketKey(v: string): Option<string> {
    BracketKeyFrom(v, 0)
  }

  // ---------------------------------------------------------------------------
  // int.TryParse || double.TryParse

  function DigitsEnd(s: string, i: nat): (j: nat)
    requires i <= |s|
    ensures i <= j <= |s|
    ensures forall k :: i <= k < j ==> IsDigit(s[k])
    ensures j == |s| || !IsDigit(s[j])
    decreases |s| - i
  {
    if i < |s| && IsDigit(s[i]) then DigitsEnd(s, i + 1) else i
  }

  function SignLength(s: string, i: nat): nat
    requires i <= |s|
  {
    if i < |s| && (s[i] == '+' || s[i] == '-') then 1 else 0
  }

  /** Nothing left, or an exponent (e|E)[sign]digits that runs to the end. */
  predicate ExponentOrEnd(s: string, i: nat)
    requires i <= |s|
  {
    i == |s|
    || ((s[i] == 'e' || s[i] == 'E')
        && var b := i + 1 + SignLength(s, i + 1);
           var d := DigitsEnd(s, b);
           d > b && d == |s|)
  }

  /** [sign] (digits [. [digits]] | . digits) [exponent]. */
  predicate DecimalLiteral(s: string) {
    var b := SignLength(s, 0);
    var i := DigitsEnd(s, b);
    if i < |s| && s[i] == '.' then
      var f := DigitsEnd(s, i + 1);
      (i > b || f > i + 1) && ExponentOrEnd(s, f)
    else
      i > b && ExponentOrEnd(s, i)
  }

  /** [sign] followed by the invariant culture's "Infinity" or "NaN", in any case. */
  predicate SymbolLiteral(s: string) {
    var body := s[SignLength(s, 0)..];
    Lower(body) == "infinity" || Lower(body) == "nan"
  }

  /**
   * int.TryParse(s) || double.TryParse(s) under the invariant culture: the
   * number styles Integer and Float|AllowThousands, surrounding white space
   * allowed. The integer forms are among the floating-point forms.
   */
  predicate IsNumeric(s: string) {
    var t := Trim(s);
    DecimalLiteral(t) || SymbolLiteral(t)
  }

  /** A plain run of decimal digits is a number. */
  lemma DigitsAreNumeric(s: string)
    requires s != [] && AllDigits(s)
    ensures IsNumeric(s)
  {
    var t := StripStart(s, IsSpace);
    assert t == s;
    var u := StripEnd(t, IsSpace);
    assert u == s;
    assert SignLength(s, 0) == 0;
    assert DigitsEnd(s, 0) == |s|;
  }
}
