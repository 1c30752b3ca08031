/**
 * What the Cypher helpers promise, proved about their specification
 * functions: escaping can be undone, splitting loses nothing and cuts only at
 * top-level commas, the RETURN clause used is the last match, and the column
 * names follow the literal, number, de-duplication and quoting rules.
 */
module CypherHelperProperties {
  import opened TextChars
  import opened Wrappers
  import opened CypherPatterns
  import opened CypherHelpers

  // ---------------------------------------------------------------------------
  // EscapeCypher

  /** Reads escaped text back: a doubled backslash stands for one backslash. */
  function UnescapeCypher(s: string): string {
    if s == [] then []
    else if |s| > 1 && s[0] == '\\' && s[1] == '\\' then ['\\'] + UnescapeCypher(s[2..])
    else [s[0]] + UnescapeCypher(s[1..])
  }

  /** Escaping loses nothing: only backslashes are doubled, and each can be told apart. */
  lemma {:induction false} EscapeCypherRoundTrip(s: string)
    ensures UnescapeCypher(EscapeCypher(s)) == s
  {
    if s != [] {
      var r := EscapeCypher(s);
      EscapeCypherRoundTrip(s[1..]);
      if s[0] == '\\' && !(|s| > 1 && s[1] == '\'') {
        assert r[2..] == EscapeCypher(s[1..]);
      } else {
        assert r[1..] == EscapeCypher(s[1..]);
      }
    }
  }

  /** What the character at position i becomes: a backslash not directly before a quote is doubled, anything else is kept. */
  function EscapedAt(s: string, i: nat): string
    requires i < |s|
  {
    if s[i] == '\\' && !(i + 1 < |s| && s[i + 1] == '\'') then "\\\\" else [s[i]]
  }

  /** The strings of ss one after another. */
  function Concat(ss: seq<string>): string {
    if ss == [] then [] else ss[0] + Concat(ss[1..])
  }

  /** The escaping, stated position by position of the query. */
  function EscapedPositions(s: string): (r: seq<string>)
    ensures |r| == |s|
    ensures forall i :: 0 <= i < |s| ==> r[i] == EscapedAt(s, i)
  {
    seq(|s|, i requires 0 <= i < |s| => EscapedAt(s, i))
  }

  /**
   * The escaped query is the query with each position replaced by EscapedAt:
   * a backslash directly before a quote stays single, every other backslash
   * is doubled, and every other character is kept.
   */
  lemma {:induction false} EscapeCypherByPosition(s: string)
    ensures EscapeCypher(s) == Concat(EscapedPositions(s))
  {
    if s != [] {
      EscapeCypherByPosition(s[1..]);
      var ps := EscapedPositions(s);
      assert ps[1..] == EscapedPositions(s[1..]) by {
        forall i | 0 <= i < |s| - 1
          ensures ps[1..][i] == EscapedPositions(s[1..])[i]
        {
          assert s[1..][i] == s[i + 1];
          assert i + 1 < |s[1..]| ==> s[1..][i + 1] == s[i + 2];
        }
      }
    }
  }

  // ---------------------------------------------------------------------------
  // SplitReturnValues

  /** The number of commas read while all three counters are zero. */
  function CutCount(s: string): nat {
    if s == [] then 0
    else CutCount(s[..|s| - 1]) + (if CutsAt(s[..|s| - 1], s[|s| - 1]) then 1 else 0)
  }

  /** Joining the segments with commas gives back the clause: the split loses nothing and keeps the order. */
  lemma {:induction false} SegmentsJoin(s: string)
    ensures JoinWith(Segments(s), ",") == s
  {
    if s != [] {
      var p, c := s[..|s| - 1], s[|s| - 1];
      SegmentsJoin(p);
      var done, last := CompletedSegments(p), LastSegment(p);
      assert Segments(p) == done + [last];
      if CutsAt(p, c) {
        assert Segments(s) == Segments(p) + [[]];
        assert (Segments(p) + [[]])[..|Segments(p)|] == Segments(p);
      } else if done == [] {
        assert Segments(s) == [last + [c]];
      } else {
        assert Segments(s) == done + [last + [c]];
        assert (done + [last + [c]])[..|done|] == done;
        assert (done + [last])[..|done|] == done;
      }
    }
  }

  /** One segment per top-level comma, plus the segment after the last one. */
  lemma {:induction false} SegmentCount(s: string)
    ensures |Segments(s)| == CutCount(s) + 1
  {
    if s != [] {
      SegmentCount(s[..|s| - 1]);
    }
  }

  /** A clause without top-level commas is one piece, however many commas it nests. */
  lemma {:induction false} NoTopLevelCommaIsOnePiece(s: string)
    requires forall i :: 0 <= i < |s| ==> !CutsAt(s[..i], s[i])
    ensures Segments(s) == [s]
  {
    if s != [] {
      var p := s[..|s| - 1];
      forall i | 0 <= i < |p|
        ensures !CutsAt(p[..i], p[i])
      {
        assert p[..i] == s[..i] && p[i] == s[i];
      }
      NoTopLevelCommaIsOnePiece(p);
      assert Segments(p) == CompletedSegments(p) + [LastSegment(p)];
      assert CompletedSegments(p) == [];
      assert Segments(p)[0] == LastSegment(p) == p;
      assert !CutsAt(p, s[|s| - 1]);
      assert LastSegment(s) == p + [s[|s| - 1]] == s;
    }
  }

  /** Every piece is trimmed. */
  lemma PiecesAreTrimmed(s: string)
    ensures forall k :: 0 <= k < |SplitPieces(s)| ==> IsTrimmed(SplitPieces(s)[k])
  {
    var last := LastSegment(s);
    var done := TrimEach(CompletedSegments(s));
    TrimmedList(CompletedSegments(s));
    if last != [] {
      assert SplitPieces(s) == done + [Trim(last)];
      AppendTrimmed(done, Trim(last));
    } else {
      assert SplitPieces(s) == done;
    }
  }

  /** Trimming every element gives trimmed elements. */
  lemma TrimmedList(ss: seq<string>)
    ensures forall k :: 0 <= k < |TrimEach(ss)| ==> IsTrimmed(TrimEach(ss)[k])
  {
    forall k | 0 <= k < |TrimEach(ss)|
      ensures IsTrimmed(TrimEach(ss)[k])
    {
      assert TrimEach(ss)[k] == Trim(ss[k]);
    }
  }

  /** Appending a trimmed text to a list of trimmed texts keeps them all trimmed. */
  lemma AppendTrimmed(ts: seq<string>, t: string)
    requires forall k :: 0 <= k < |ts| ==> IsTrimmed(ts[k])
    requires IsTrimmed(t)
    ensures forall k :: 0 <= k < |ts + [t]| ==> IsTrimmed((ts + [t])[k])
  {
    forall k | 0 <= k < |ts + [t]|
      ensures IsTrimmed((ts + [t])[k])
    {
      if k < |ts| {
        assert (ts + [t])[k] == ts[k];
      }
    }
  }

  /** A non-empty clause yields at least one piece. */
  lemma NonEmptyHasPiece(s: string)
    requires s != []
    ensures |SplitPieces(s)| >= 1
  {
    NonEmptyHasSegment(s);
    var last := LastSegment(s);
    assert |SplitPieces(s)| == |CompletedSegments(s)| + (if last != [] then 1 else 0);
  }

  /** A non-empty clause has a completed segment or a non-empty last one. */
  lemma NonEmptyHasSegment(s: string)
    requires s != []
    ensures |CompletedSegments(s)| >= 1 || LastSegment(s) != []
  {
    var p, c := s[..|s| - 1], s[|s| - 1];
    if CutsAt(p, c) {
      assert CompletedSegments(s) == CompletedSegments(p) + [LastSegment(p)];
    } else {
      assert LastSegment(s) == LastSegment(p) + [c];
    }
  }

  // ---------------------------------------------------------------------------
  // Locating the clause

  /** Every element of the scan is a match starting at or after `from`. */
  lemma {:induction false} ScanFindsMatch(t: string, from: nat, k: nat)
    requires from <= |t| && k < |ReturnMatches(t, from)|
    ensures exists i :: from <= i < |t| && ReturnMatchAt(t, i) == Some(ReturnMatches(t, from)[k])
    decreases |t| - from
  {
    match ReturnMatchAt(t, from)
    case Some(m) =>
      if k == 0 {
        assert ReturnMatchAt(t, from) == Some(ReturnMatches(t, from)[0]);
      } else {
        ScanFindsMatch(t, m.end, k - 1);
      }
    case None =>
      ScanFindsMatch(t, from + 1, k);
  }

  /** An empty scan means no match starts anywhere in the scanned range. */
  lemma {:induction false} EmptyScanMeansNoMatch(t: string, from: nat)
    requires from <= |t| && ReturnMatches(t, from) == []
    ensures forall p :: from <= p <= |t| ==> ReturnMatchAt(t, p).None?
    decreases |t| - from
  {
    if from < |t| {
      EmptyScanMeansNoMatch(t, from + 1);
    }
  }

  /** The scan resumed after its last match finds nothing. */
  lemma {:induction false} ScanEndsAfterLast(t: string, from: nat)
    requires from <= |t| && ReturnMatches(t, from) != []
    ensures var ms := ReturnMatches(t, from); ReturnMatches(t, ms[|ms| - 1].end) == []
    decreases |t| - from
  {
    match ReturnMatchAt(t, from)
    case Some(m) =>
      if ReturnMatches(t, m.end) != [] {
        ScanEndsAfterLast(t, m.end);
      }
    case None =>
      ScanEndsAfterLast(t, from + 1);
  }

  /**
   * The clause is group 1 of a RETURN match: the keyword, white space, a
   * non-empty capture that stops where the look-ahead first holds; and no
   * match starts at or after its end, so it is the last one.
   */
  lemma ClauseIsLastMatch(t: string, m: Span)
    requires LastReturnClause(t) == Some(m)
    ensures exists i :: 0 <= i < |t| && ReturnMatchAt(t, i) == Some(m)
    ensures m.start < m.end <= |t| && ClauseEndsAt(t, m.end)
    ensures forall p :: m.end <= p <= |t| ==> ReturnMatchAt(t, p).None?
  {
    ClauseIsAMatch(t, m);
    var i :| 0 <= i < |t| && ReturnMatchAt(t, i) == Some(m);
    NoMatchAfterClause(t, m);
  }

  lemma ClauseIsAMatch(t: string, m: Span)
    requires LastReturnClause(t) == Some(m)
    ensures exists i :: 0 <= i < |t| && ReturnMatchAt(t, i) == Some(m)
  {
    var ms := ReturnMatches(t, 0);
    assert m == ms[|ms| - 1];
    ScanFindsMatch(t, 0, |ms| - 1);
  }

  lemma NoMatchAfterClause(t: string, m: Span)
    requires LastReturnClause(t) == Some(m)
    ensures forall p :: m.end <= p <= |t| ==> ReturnMatchAt(t, p).None?
  {
    var ms := ReturnMatches(t, 0);
    assert m == ms[|ms| - 1];
    ScanEndsAfterLast(t, 0);
    EmptyScanMeansNoMatch(t, m.end);
  }

  /** The normalised text has no line breaks, so `.` in the patterns never meets one. */
  lemma NormalizedHasNoLineBreaks(cypher: string)
    ensures '\n' !in Normalize(cypher) && '\r' !in Normalize(cypher)
    ensures |Normalize(cypher)| == |cypher|
  {
  }

  /** A clause that is found is non-empty, so it yields at least one column. */
  lemma FoundClauseHasColumns(cypher: string)
    ensures ReturnClause(cypher).Some? ==> |SplitPieces(ReturnClause(cypher).value)| >= 1
  {
    var text := Normalize(cypher);
    if LastReturnClause(text).Some? {
      var m := LastReturnClause(text).value;
      ClauseIsLastMatch(text, m);
      NonEmptyHasPiece(text[m.start..m.end]);
    }
  }

  // ---------------------------------------------------------------------------
  // Declaring the columns

  /** A piece that is neither an object nor an array literal is named and counted. */
  predicate IsCounted(value: string) {
    !IsLiteralPiece(Trim(value))
  }

  /** The sanitised name a counted piece is recorded under. */
  function BaseName(value: string): string {
    Sanitize(ColumnName(Trim(value)))
  }

  /** How many counted pieces of `values` have base name b. */
  function Occurrences(b: string, values: seq<string>): nat {
    if values == [] then 0
    else
      var v := values[|values| - 1];
      Occurrences(b, values[..|values| - 1]) + (if IsCounted(v) && BaseName(v) == b then 1 else 0)
  }

  lemma ColumnOfCounted(value: string, columnNames: map<string, nat>)
    requires IsCounted(value)
    ensures Column(value, columnNames) == NamedColumn(value, ColumnName(Trim(value)), columnNames)
  {
  }

  lemma ColumnOfLiteral(value: string, columnNames: map<string, nat>)
    requires !IsCounted(value)
    ensures Column(value, columnNames) == (LiteralColumn(Trim(value)), columnNames)
  {
  }

  /** Literals leave the dictionary alone; other pieces record their base name. */
  lemma ColumnRecords(value: string, columnNames: map<string, nat>)
    ensures IsCounted(value) ==> Column(value, columnNames).1 == Recorded(BaseName(value), columnNames)
    ensures !IsCounted(value) ==> Column(value, columnNames).1 == columnNames
  {
    if IsCounted(value) {
      var name := ColumnName(Trim(value));
      ColumnOfCounted(value, columnNames);
      NamedColumnRecords(value, name, columnNames);
    } else {
      ColumnOfLiteral(value, columnNames);
    }
  }

  /** A named piece records the sanitised name, whatever its declaration. */
  lemma NamedColumnRecords(value: string, name: string, columnNames: map<string, nat>)
    ensures NamedColumn(value, name, columnNames).1 == Recorded(Sanitize(name), columnNames)
  {
  }

  /** Without '[' in the piece, the de-duplicated name is quoted exactly when it has an upper-case letter. */
  lemma PlainNamedColumn(value: string, name: string, columnNames: map<string, nat>)
    requires '[' !in value
    ensures var unique := Deduplicated(Sanitize(name), columnNames);
            NamedColumn(value, name, columnNames).0
            == (if HasUpper(unique) then Quote(unique) else unique) + " agtype"
  {
    var base := Sanitize(name);
    var unique := Deduplicated(base, columnNames);
    if base in columnNames {
      var digits := NatToString(columnNames[base] + 1);
      assert forall k :: 0 <= k < |unique| ==> IsWordChar(unique[k]) by {
        forall k | 0 <= k < |unique|
          ensures IsWordChar(unique[k])
        {
          if k >= |base| {
            assert unique[k] == digits[k - |base|];
          }
        }
      }
    }
    WordTextHasNoDollar(unique);
  }

  /** Declaring one more piece appends its declaration and moves on to its dictionary. */
  lemma DeclareSnoc(values: seq<string>, v: string)
    ensures var prev := Declare(values);
            var next := Column(v, prev.1);
            Declare(values + [v]) == (prev.0 + [next.0], next.1)
  {
    assert (values + [v])[..|values|] == values;
  }

  /** The declaration of piece i is the one made with the dictionary the earlier pieces left. */
  lemma {:induction false} DeclarePrefix(values: seq<string>, i: nat)
    requires i < |values|
    ensures Declare(values).0[i] == Column(values[i], Declare(values[..i]).1).0
  {
    var init := values[..|values| - 1];
    assert values == init + [values[|values| - 1]];
    DeclareSnoc(init, values[|values| - 1]);
    if i < |init| {
      DeclarePrefix(init, i);
      assert init[..i] == values[..i];
    } else {
      assert values[..i] == init;
    }
  }

  /** The dictionary after one more piece, given the one before it. */
  lemma DeclareStep(values: seq<string>)
    requires values != []
    ensures var init, v := values[..|values| - 1], values[|values| - 1];
            Declare(values).1 == if IsCounted(v) then Recorded(BaseName(v), Declare(init).1) else Declare(init).1
  {
    var init, v := values[..|values| - 1], values[|values| - 1];
    assert values == init + [v];
    DeclareSnoc(init, v);
    ColumnRecords(v, Declare(init).1);
  }

  /** The dictionary holds exactly the base names seen, each with its count of repeats. */
  lemma {:induction false} CounterTracksOccurrences(values: seq<string>)
    ensures forall b :: b in Declare(values).1 <==> Occurrences(b, values) > 0
    ensures forall b :: b in Declare(values).1 ==> Declare(values).1[b] == Occurrences(b, values) - 1
  {
    if values != [] {
      var init, v := values[..|values| - 1], values[|values| - 1];
      CounterTracksOccurrences(init);
      DeclareStep(values);
      var before, after := Declare(init).1, Declare(values).1;
      forall b
        ensures (b in after <==> Occurrences(b, values) > 0)
                && (b in after ==> after[b] == Occurrences(b, values) - 1)
      {
        assert Occurrences(b, values)
               == Occurrences(b, init) + (if IsCounted(v) && BaseName(v) == b then 1 else 0);
      }
    }
  }

  /** Sanitised text is all word characters, so it never starts with '$'. */
  lemma WordTextHasNoDollar(s: string)
    requires forall k :: 0 <= k < |s| ==> IsWordChar(s[k])
    ensures !StartsWith(s, "$")
  {
    if s != [] {
      assert IsWordChar(s[0]);
    }
  }

  /** Sanitising sanitised text changes nothing. */
  lemma SanitizeIdempotent(name: string)
    ensures Sanitize(Sanitize(name)) == Sanitize(name)
  {
    var once := Sanitize(name);
    assert forall k :: 0 <= k < |once| ==> Sanitize(once)[k] == once[k];
  }

  /**
   * A counted piece without '[' is declared under its base name, followed by
   * k when it is the k-th repeat of that base name in the call, quoted exactly
   * when that contains an upper-case letter; the '$' test never fires.
   */
  /** How a name without '[' in its piece is declared: quoted exactly when it has an upper-case letter. */
  function PlainDeclaration(unique: string): string {
    (if HasUpper(unique) then Quote(unique) else unique) + " agtype"
  }

  lemma RepeatGetsItsCount(values: seq<string>, i: nat)
    requires i < |values| && IsCounted(values[i]) && '[' !in values[i]
    ensures var b := BaseName(values[i]);
            var n := Occurrences(b, values[..i]);
            Declare(values).0[i] == PlainDeclaration(if n == 0 then b else b + NatToString(n))
  {
    var names := Declare(values[..i]).1;
    CountedPieceDeclaration(values, i);
    PlainNamedColumn(values[i], ColumnName(Trim(values[i])), names);
    DeduplicatedByOccurrences(values[..i], BaseName(values[i]));
  }

  lemma CountedPieceDeclaration(values: seq<string>, i: nat)
    requires i < |values| && IsCounted(values[i])
    ensures Declare(values).0[i] == NamedColumn(values[i], ColumnName(Trim(values[i])), Declare(values[..i]).1).0
  {
    DeclarePrefix(values, i);
    ColumnOfCounted(values[i], Declare(values[..i]).1);
  }

  /** The name a base gets after the given pieces: itself the first time, else with its count of earlier occurrences. */
  lemma DeduplicatedByOccurrences(values: seq<string>, b: string)
    ensures var n := Occurrences(b, values);
            Deduplicated(b, Declare(values).1) == if n == 0 then b else b + NatToString(n)
  {
    var names := Declare(values).1;
    var n := Occurrences(b, values);
    CounterTracksOccurrences(values);
    assert b in names <==> n > 0;
    if b in names {
      assert names[b] + 1 == n;
    }
  }

  /** A counted piece with '[' is declared under its quoted, unsanitised name, whatever came before: no repeat suffix. */
  lemma BracketPieceIgnoresRepeats(values: seq<string>, i: nat)
    requires i < |values| && IsCounted(values[i]) && '[' in values[i]
    ensures Declare(values).0[i] == Quote(ColumnName(Trim(values[i]))) + " agtype"
  {
    DeclarePrefix(values, i);
    ColumnOfCounted(values[i], Declare(values[..i]).1);
  }

  /** An object or array literal yields its alias or `result`. */
  lemma LiteralPieceDeclaration(values: seq<string>, i: nat)
    requires i < |values| && !IsCounted(values[i])
    ensures Declare(values).0[i] == LiteralColumn(Trim(values[i]))
  {
    DeclarePrefix(values, i);
    ColumnOfLiteral(values[i], Declare(values[..i]).1);
  }

  /** An object or array literal leaves the dictionary as it was. */
  lemma LiteralPieceUncounted(values: seq<string>, i: nat)
    requires i < |values| && !IsCounted(values[i])
    ensures Declare(values[..i + 1]).1 == Declare(values[..i]).1
  {
    assert values[..i + 1] == values[..i] + [values[i]];
    DeclareStep(values[..i + 1]);
    assert values[..i + 1][..i] == values[..i];
  }

  lemma ColumnEndsWithAgtype(value: string, columnNames: map<string, nat>)
    ensures EndsWith(Column(value, columnNames).0, " agtype")
  {
    if IsCounted(value) {
      ColumnOfCounted(value, columnNames);
    } else {
      ColumnOfLiteral(value, columnNames);
    }
  }

  /** Every declaration ends with the type name. */
  lemma {:induction false} EveryColumnIsAgtype(values: seq<string>)
    ensures forall k :: 0 <= k < |Declare(values).0| ==> EndsWith(Declare(values).0[k], " agtype")
  {
    if values != [] {
      var init, v := values[..|values| - 1], values[|values| - 1];
      assert values == init + [v];
      EveryColumnIsAgtype(init);
      DeclareSnoc(init, v);
      ColumnEndsWithAgtype(v, Declare(init).1);
    }
  }

  /**
   * Only the base name is recorded, so a repeat suffix can collide with a
   * name that already ends in that digit: for `n.name, n.name, n.name1` the
   * second and third pieces are both declared as `name1`.
   */
  lemma SuffixCanCollide(a: string, nameA: string, c: string, nameC: string, columnNames: map<string, nat>)
    requires '[' !in a && '[' !in c
    requires Sanitize(nameC) == Sanitize(nameA) + "1"
    requires Sanitize(nameA) !in columnNames && Sanitize(nameC) !in columnNames
    ensures var first := NamedColumn(a, nameA, columnNames);
            var second := NamedColumn(a, nameA, first.1);
            var third := NamedColumn(c, nameC, second.1);
            second.0 == third.0
  {
    var first := NamedColumn(a, nameA, columnNames);
    var second := NamedColumn(a, nameA, first.1);
    assert NatToString(1) == "1";
    PlainNamedColumn(a, nameA, first.1);
    PlainNamedColumn(c, nameC, second.1);
    assert Sanitize(nameC) != Sanitize(nameA);
  }

  // ---------------------------------------------------------------------------
  // Numbers

  lemma NumHasNoAlias()
    ensures !HasAliasSeparator("num")
  {
  }

  lemma NumHasNoCall()
    ensures !HasFunctionCall("num")
  {
  }

  lemma NumHasNoBacktick()
    ensures TrimChar("num", '`') == "num"
  {
  }

  /** Every numeric piece is named `num`. */
  lemma NumbersAreNamedNum(t: string)
    requires IsNumeric(t)
    ensures ColumnName(t) == "num"
  {
    NumHasNoAlias();
    NumHasNoCall();
    assert '.' !in "num" && '[' !in "num";
    assert AccessorName("num") == "num";
    NumHasNoBacktick();
  }

  // ---------------------------------------------------------------------------
  // The naming rules, one per branch of the Select lambda

  /** A separator match in a suffix of v is a separator match in v, shifted. */
  lemma SeparatorInSuffix(v: string, e: nat, q: nat)
    requires e <= |v| && q <= |v| - e
    ensures AliasSeparatorAt(v[e..], q).Some? ==> AliasSeparatorAt(v, e + q).Some?
  {
    AliasSeparatorAtMeans(v[e..], q);
    if AliasSeparatorAt(v[e..], q).Some? {
      var j: nat, x: nat :| SeparatorMatch(v[e..], q, j, x);
      SeparatorMatchShifts(v, e, q, j, x);
      AliasSeparatorAtMeans(v, e + q);
    }
  }

  lemma SeparatorMatchShifts(v: string, e: nat, q: nat, j: nat, x: nat)
    requires e <= |v| && SeparatorMatch(v[e..], q, j, x)
    ensures SeparatorMatch(v, e + q, e + j, e + x)
  {
    var w := v[e..];
    assert KeywordAt(v, e + j, "as") by {
      assert w[j..j + 2] == v[e + j..e + j + 2];
    }
    assert forall k :: e + q <= k < e + j ==> IsSpace(v[k]) by {
      assert forall k :: q <= k < j ==> w[k] == v[e + k];
    }
    assert forall k :: e + j + 2 <= k < e + x ==> IsSpace(v[k]) by {
      assert forall k :: j + 2 <= k < x ==> w[k] == v[e + k];
    }
    assert e + x == |v| || !IsSpace(v[e + x]) by {
      assert x < |w| ==> w[x] == v[e + x];
    }
  }

  /**
   * With an `AS` alias, the name is the text after the last `\s+AS\s+`
   * separator that Regex.Split finds, kept as it is (no backtick trimming),
   * and it holds no further separator.
   */
  lemma AliasRule(t: string)
    requires !IsNumeric(t) && HasAliasSeparator(t)
    ensures ColumnName(t) == t[LastAliasSeparatorEnd(t, 0).value..]
    ensures !HasAliasSeparator(ColumnName(t))
  {
    var e := LastAliasSeparatorEnd(t, 0).value;
    var name := t[e..];
    LastSeparatorOfScan(t, 0);
    forall q | 0 <= q < |name|
      ensures AliasSeparatorAt(name, q).None?
    {
      SeparatorInSuffix(t, e, q);
    }
    LastSeparatorOfScan(name, 0);
  }

  /** Without an alias, a function call is named by the first run of word characters, which is not empty. */
  lemma CallRule(t: string)
    requires !IsNumeric(t) && !HasAliasSeparator(t) && HasFunctionCall(t)
    ensures ColumnName(t) == FirstWord(t)
    ensures ColumnName(t) != []
  {
    CallHasName(t);
    var w := FirstWord(t);
    assert '`' !in w by {
      assert forall k :: 0 <= k < |w| ==> IsWordChar(w[k]);
    }
    TrimCharAbsent(w, '`');
    assert AccessorName(t) == w;
  }

  /** A function call has a word character before its '(', so the first run of word characters is not empty. */
  lemma CallHasName(t: string)
    requires HasFunctionCall(t)
    ensures FirstWord(t) != []
  {
    CallFromMeans(t, 0);
    var x :| 0 <= x < |t| && CallAt(t, x);
    assert IsWordChar(t[x - 1]);
    FirstWordIsFirstRun(t, 0);
  }

  /** Without an alias or a call, a member access is named by the text after its last '.', backticks trimmed. */
  lemma MemberRule(t: string)
    requires !IsNumeric(t) && !HasAliasSeparator(t) && !HasFunctionCall(t) && '.' in t
    ensures ColumnName(t) == TrimChar(AfterLast(t, '.'), '`')
  {
  }

  /**
   * Without an alias, a call or a '.', an indexer is named by the key of the
   * leftmost `['key']`, backticks trimmed; when there is none the piece is
   * kept, backticks trimmed.
   */
  lemma IndexerRule(t: string)
    requires !IsNumeric(t) && !HasAliasSeparator(t) && !HasFunctionCall(t) && '.' !in t && '[' in t
    ensures BracketKey(t).Some? ==> ColumnName(t) == TrimChar(BracketKey(t).value, '`')
    ensures BracketKey(t).None? ==> ColumnName(t) == TrimChar(t, '`')
  {
  }

  /** Any other piece is named by itself with backticks trimmed. */
  lemma PlainRule(t: string)
    requires !IsNumeric(t) && !HasAliasSeparator(t) && !HasFunctionCall(t) && '.' !in t && '[' !in t
    ensures ColumnName(t) == TrimChar(t, '`')
  {
  }
}
